/** The registry, the buffered connection and handleWrite as objects, tied to the steps of Conn. */
module ConnObjects {
  import opened Util
  import opened Conn

  function Entry(m: map<int, Interest>, fd: int): Option<Interest> {
    if fd in m then Some(m[fd]) else None
  }

  /** The epoll instance: it refuses an ADD of a descriptor it has and a MOD of one it has not, and
      whatever else it likes (`ctlOk`). */
  class Kernel {
    var interest: map<int, Interest>

    constructor ()
      ensures interest == map[]
    {
      interest := map[];
    }

    method Ctl(fd: int, want: Interest, mod: bool, ctlOk: bool) returns (ok: bool)
      modifies this
      ensures ok == (ctlOk && mod == (fd in old(interest)))
      ensures interest == if ok then old(interest)[fd := want] else old(interest)
    {
      ok := ctlOk && mod == (fd in interest);
      if ok {
        interest := interest[fd := want];
      }
    }
  }

  class Registry {
    var epollSet: map<int, Interest>
    const epoll: Kernel

    constructor (epoll: Kernel)
      ensures epollSet == map[] && this.epoll == epoll
    {
      epollSet := map[];
      this.epoll := epoll;
    }

    /** registerRead and registerWrite, by the interest that is wanted. */
    method Register(fd: int, want: Interest, ctlOk: bool) returns (ok: bool)
      modifies this, epoll
      ensures ok == CtlSucceeds(Entry(old(epollSet), fd), Entry(old(epoll.interest), fd), ctlOk)
      ensures epollSet == if ok then old(epollSet)[fd := want] else old(epollSet)
      ensures epoll.interest == if ok then old(epoll.interest)[fd := want] else old(epoll.interest)
    {
      ok := epoll.Ctl(fd, want, fd in epollSet, ctlOk);
      if ok {
        epollSet := epollSet[fd := want];
      }
    }

    /** handleWrite on a connection of this poll. */
    method HandleWrite(conn: DefaultBufferedConn, n: nat, failed: bool, ctlOk: bool) returns (status: Status)
      requires n <= |conn.outBuffer| && this == conn.home
      modifies this, epoll, conn
      ensures conn.State(status) == Step(old(conn.State(Live)), Writable(n, failed, ctlOk))
      ensures OthersUntouched(old(epollSet), epollSet, conn.fd)
      ensures OthersUntouched(old(epoll.interest), epoll.interest, conn.fd)
    {
      if failed {
        return Failed;
      }
      conn.sent := conn.sent + conn.outBuffer[..n];
      conn.outBuffer := conn.outBuffer[n..];
      if conn.outBuffer == [] {
        var ok := Register(conn.fd, ReadEvents, ctlOk);
        return if ok then Live else Failed;
      }
      return Live;
    }
  }

  ghost predicate OthersUntouched(before: map<int, Interest>, after: map<int, Interest>, fd: int) {
    forall other :: other != fd ==> Entry(after, other) == Entry(before, other)
  }

  /** DefaultBufferedConn. `home` is the poll that owns the descriptor; `poll` is the field, which accept
      leaves nil. `sent` and `written` keep the history. */
  class DefaultBufferedConn {
    const fd: int
    const poll: Registry?
    var outBuffer: Bytes
    ghost const home: Registry
    ghost var sent: Bytes
    ghost var written: Bytes

    constructor (fd: int, poll: Registry?, ghost home: Registry)
      requires poll == null || poll == home
      ensures this.fd == fd && this.poll == poll && this.home == home && outBuffer == sent == written == []
    {
      this.fd, this.poll, this.home := fd, poll, home;
      outBuffer, sent, written := [], [], [];
    }

    ghost function State(status: Status): State
      reads this, home, home.epoll
    {
      Conn.State.State(sent, outBuffer, written, Entry(home.epollSet, fd), Entry(home.epoll.interest, fd),
                       poll != null, status)
    }

    /** Write; a negative descriptor, for which os.NewFile gives nothing, is left out. */
    method Write(data: Bytes, n: nat, outcome: Outcome, ctlOk: bool) returns (status: Status)
      requires Possible(State(Live), Conn.Write(data, n, outcome, ctlOk)) && (poll == null || poll == home)
      modifies this, home, home.epoll
      ensures State(status) == Step(old(State(Live)), Conn.Write(data, n, outcome, ctlOk))
      ensures OthersUntouched(old(home.epollSet), home.epollSet, fd)
      ensures OthersUntouched(old(home.epoll.interest), home.epoll.interest, fd)
    {
      written := written + data;
      if outBuffer != [] {
        outBuffer := outBuffer + data;
        status := RegisterWrite(ctlOk);
        return;
      }
      sent := sent + data[..n];
      if outcome == Fatal {
        return Failed;
      }
      if outcome == Temporary || n < |data| {
        outBuffer := data[n..];
        status := RegisterWrite(ctlOk);
        return;
      }
      return Live;
    }

    /** c.poll.registerWrite(c.fd) */
    method RegisterWrite(ctlOk: bool) returns (status: Status)
      requires poll == null || poll == home
      modifies home, home.epoll
      ensures State(status) == Conn.RegisterWrite(old(State(Live)), ctlOk)
      ensures OthersUntouched(old(home.epollSet), home.epollSet, fd)
      ensures OthersUntouched(old(home.epoll.interest), home.epoll.interest, fd)
    {
      if poll == null {
        return Panicked;
      }
      var ok := poll.Register(fd, WriteEvents, ctlOk);
      return if ok then Live else Failed;
    }
  }
}
