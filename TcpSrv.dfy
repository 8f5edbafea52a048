/**
 * TcpSrv: the bookkeeping of a listening TCP server with a bounded number of
 * clients.
 *
 * The server keeps a map from client descriptor to peer address, the fd_set
 * handed to select() (`allFds`), the largest descriptor accepted (`maxFd`), a
 * capacity and a ready flag. The system calls it makes (socket, setsockopt,
 * bind, listen, accept, write, read, select, close) are not modelled: each
 * operation receives their results as parameters, so every contract below
 * holds for whatever the kernel answers.
 */
module TcpSrv {
  import opened Wrappers

  const FD_SETSIZE: int := 1024
  const DEFAULT_BACKLOG: int32 := 5
  const DEFAULT_CAPACITY: int := 20
  /** The default `num_tries` of Send and Recv. */
  const DEFAULT_TRIES: int32 := 5

  type int32 = x: int | -0x8000_0000 <= x < 0x8000_0000
  type uint32 = x: int | 0 <= x < 0x1_0000_0000

  type byte = b: int | 0 <= b < 256

  /** sockaddr_in, kept as an opaque value. */
  datatype SockAddr = SockAddr(family: int, port: int, host: int)

  /** tcpsrv_error: a message and no kind. */
  datatype TcpSrvError = TcpSrvError(what: string)

  const SocketFailed := TcpSrvError("Failed to get a server socket")
  const ReuseFailed := TcpSrvError("Failed to make the server socket address reusable")
  const ListenFailed := TcpSrvError("Failed to listen on the server socket")
  const AcceptFailed := TcpSrvError("Failed to accept a new client")
  const SelectFailed := TcpSrvError("Failed to select unprocessed clients")

  // ---------------------------------------------------------------------------
  // Capacity

  /**
   * The capacity Setup stores, as intended: at most FD_SETSIZE, so that every
   * client can be watched by select(), and never negative.
   */
  function ClampCapacity(c: int32): (r: uint32)
    ensures r <= FD_SETSIZE
    ensures 0 <= c <= FD_SETSIZE ==> r == c
    ensures c > FD_SETSIZE ==> r == FD_SETSIZE
    ensures c < 0 ==> r == 0
  {
    if c > FD_SETSIZE then FD_SETSIZE else if c < 0 then 0 else c
  }

  /**
   * The capacity Setup stores as written: the signed clamp result is
   * assigned to an unsigned int, so a negative argument wraps around.
   */
  function CapacityAsWritten(c: int32): (r: uint32)
    ensures c >= 0 ==> r == ClampCapacity(c)
    ensures c < 0 ==> r == c + 0x1_0000_0000
  {
    var clamped := if c > FD_SETSIZE then FD_SETSIZE else c;
    if clamped < 0 then clamped + 0x1_0000_0000 else clamped
  }

  /** A negative capacity escapes the FD_SETSIZE bound it was meant to respect. */
  lemma NegativeCapacityEscapesClamp()
    ensures CapacityAsWritten(-1) == 0xFFFF_FFFF > FD_SETSIZE
    ensures ClampCapacity(-1) == 0
  {
  }

  // ---------------------------------------------------------------------------
  // Decimal rendering of the port in the bind error

  function DigitChar(d: nat): (c: char)
    requires d < 10
    ensures '0' <= c <= '9' && (c as int) - ('0' as int) == d
  {
    ('0' as int + d) as char
  }

  /** What `ostringstream << n` prints for a natural number: its decimal digits. */
  function Digits(n: nat): (s: string)
    ensures |s| >= 1 && forall i :: 0 <= i < |s| ==> '0' <= s[i] <= '9'
    ensures n > 0 ==> s[0] != '0'
  {
    if n < 10 then [DigitChar(n)] else Digits(n / 10) + [DigitChar(n % 10)]
  }

  /** What `ostringstream << n` prints for an int: a minus sign when negative. */
  function DecimalString(n: int): (s: string)
    ensures |s| >= 1
    ensures s[0] == '-' <==> n < 0
  {
    if n < 0 then "-" + Digits(-n) else Digits(n)
  }

  /** The value of a string of decimal digits. */
  function ParseDigits(s: string): int
  {
    if s == [] then 0 else ParseDigits(s[..|s| - 1]) * 10 + ((s[|s| - 1] as int) - ('0' as int))
  }

  function ParseDecimal(s: string): int
  {
    if |s| > 0 && s[0] == '-' then -ParseDigits(s[1..]) else ParseDigits(s)
  }

  lemma {:induction false} DigitsRoundTrip(n: nat)
    ensures ParseDigits(Digits(n)) == n
  {
    if n >= 10 {
      DigitsRoundTrip(n / 10);
      var s := Digits(n);
      assert s[..|s| - 1] == Digits(n / 10);
    }
  }

  /** The decimal text of a number reads back as that number. */
  lemma DecimalRoundTrip(n: int)
    ensures ParseDecimal(DecimalString(n)) == n
  {
    if n < 0 {
      DigitsRoundTrip(-n);
      assert DecimalString(n)[1..] == Digits(-n);
    } else {
      DigitsRoundTrip(n);
    }
  }

  const BindPrefix := "Failed to bind the socket. Is the port "
  const BindSuffix := " in use?"

  /** The message of a failed bind: it names the port, in decimal. */
  function BindFailed(port: int32): (e: TcpSrvError)
    ensures |e.what| > |BindPrefix| + |BindSuffix|
    ensures e.what[..|BindPrefix|] == BindPrefix
    ensures e.what[|e.what| - |BindSuffix|..] == BindSuffix
    ensures ParseDecimal(e.what[|BindPrefix|..|e.what| - |BindSuffix|]) == port
  {
    var m := BindPrefix + DecimalString(port) + BindSuffix;
    assert m[|BindPrefix|..|m| - |BindSuffix|] == DecimalString(port);
    DecimalRoundTrip(port);
    TcpSrvError(m)
  }

  // ---------------------------------------------------------------------------
  // Retries

  /**
   * The first of `tries` attempts whose result is not negative, if any:
   * the retry loops of Send and Recv stop there.
   */
  function FirstSuccess(results: nat -> int, tries: int): (r: Option<nat>)
    ensures r.Some? ==> r.value < tries && results(r.value) >= 0
    ensures r.Some? ==> forall k :: 0 <= k < r.value ==> results(k) < 0
    ensures r.None? ==> forall k :: 0 <= k < tries ==> results(k) < 0
  {
    FirstSuccessFrom(results, 0, tries)
  }

  function FirstSuccessFrom(results: nat -> int, from: nat, tries: int): (r: Option<nat>)
    requires forall k :: 0 <= k < from ==> results(k) < 0
    ensures r.Some? ==> from <= r.value < tries && results(r.value) >= 0
    ensures r.Some? ==> forall k :: 0 <= k < r.value ==> results(k) < 0
    ensures r.None? ==> forall k :: 0 <= k < tries ==> results(k) < 0
    decreases tries - from
  {
    if from >= tries then None
    else if results(from) >= 0 then Some(from)
    else FirstSuccessFrom(results, from + 1, tries)
  }

  /** An attempt that succeeds after only failures is the first success. */
  lemma FirstSuccessAt(results: nat -> int, tries: int, j: nat)
    requires j < tries && results(j) >= 0
    requires forall k :: 0 <= k < j ==> results(k) < 0
    ensures FirstSuccess(results, tries) == Some(j)
  {
    FirstSuccessFromAt(results, 0, tries, j);
  }

  lemma {:induction false} FirstSuccessFromAt(results: nat -> int, from: nat, tries: int, j: nat)
    requires from <= j < tries && results(j) >= 0
    requires forall k :: 0 <= k < j ==> results(k) < 0
    ensures FirstSuccessFrom(results, from, tries) == Some(j)
    decreases j - from
  {
    if from < j {
      FirstSuccessFromAt(results, from + 1, tries, j);
    }
  }

  /** The results of write(fd, buf, len) on successive attempts, as the kernel gives them. */
  function WriteAttempts(write: (int, seq<byte>, nat) -> int, fd: int, buf: seq<byte>): nat -> int
  {
    (j: nat) => write(fd, buf, j)
  }

  /** The results of read(fd, buf, len) on successive attempts. */
  function ReadAttempts(read: (int, nat, nat) -> int, fd: int, len: nat): nat -> int
  {
    (j: nat) => read(fd, len, j)
  }

  /** Whether Send with DEFAULT_TRIES gets buf out to fd. */
  predicate Delivers(write: (int, seq<byte>, nat) -> int, fd: int, buf: seq<byte>)
  {
    FirstSuccess(WriteAttempts(write, fd, buf), DEFAULT_TRIES).Some?
  }

  // ---------------------------------------------------------------------------
  // Ascending iteration over descriptors (std::map order)

  predicate Increasing(s: seq<int>) {
    forall i, j :: 0 <= i < j < |s| ==> s[i] < s[j]
  }

  lemma NonEmptyHasMember(s: set<int>)
    requires s != {}
    ensures exists y :: y in s
  {
    if forall y :: y !in s {
      assert false;
    }
  }

  /** A non-empty finite set of descriptors has a least element. */
  lemma {:induction false} HasLeast(s: set<int>)
    requires s != {}
    ensures exists m :: m in s && forall y :: y in s ==> m <= y
    decreases |s|
  {
    NonEmptyHasMember(s);
    var x :| x in s;
    var rest := s - {x};
    if rest == {} {
      forall y | y in s ensures x <= y {
        assert y !in rest;
      }
    } else {
      HasLeast(rest);
      var m :| m in rest && forall y :: y in rest ==> m <= y;
      var least := if x < m then x else m;
      forall y | y in s ensures least <= y {
        if y != x {
          assert y in rest;
        }
      }
      assert least in s;
    }
  }

  /**
   * Appending the least of the descriptors still to visit keeps the visited
   * ones ascending and below every descriptor still to visit.
   */
  lemma AppendLeast(visited: seq<int>, rest: set<int>, fd: int)
    requires Increasing(visited) && fd in rest
    requires forall i, y :: 0 <= i < |visited| && y in rest ==> visited[i] < y
    requires forall y :: y in rest ==> fd <= y
    ensures Increasing(visited + [fd])
    ensures forall i, y :: 0 <= i < |visited + [fd]| && y in rest - {fd} ==> (visited + [fd])[i] < y
  {
  }

  /** The clients still tracked while a Broadcast is under way. */
  ghost function Survivors(m: map<int, SockAddr>, pending: set<int>,
                           write: (int, seq<byte>, nat) -> int, buf: seq<byte>): map<int, SockAddr>
  {
    map fd | fd in m && (fd in pending || Delivers(write, fd, buf)) :: m[fd]
  }

  /** One Send of a Broadcast either keeps its client or drops exactly it. */
  lemma SurvivorsStep(m: map<int, SockAddr>, pending: set<int>, fd: int,
                      write: (int, seq<byte>, nat) -> int, buf: seq<byte>)
    requires fd in pending && fd in m
    ensures fd in Survivors(m, pending, write, buf)
    ensures Delivers(write, fd, buf) ==>
      Survivors(m, pending - {fd}, write, buf) == Survivors(m, pending, write, buf)
    ensures !Delivers(write, fd, buf) ==>
      Survivors(m, pending - {fd}, write, buf) == Survivors(m, pending, write, buf) - {fd}
  {
  }

  /**
   * Whether Setup gets the server listening: socket() gives a descriptor and
   * setsockopt(), bind() on the port and listen() with the backlog all
   * succeed. `bind` and `listen` are the kernel's answers for a descriptor
   * and the port, or backlog, they are called with.
   */
  predicate Listens(port: int32, backlog: int32, socketResult: int, reuseResult: int,
                    bind: (int, int32) -> int, listen: (int, int32) -> int)
  {
    socketResult >= 0 && reuseResult >= 0 && bind(socketResult, port) >= 0 && listen(socketResult, backlog) >= 0
  }

  // ---------------------------------------------------------------------------

  class TcpSrv {
    var clients: map<int, SockAddr>
    var serverfd: int
    var capacity: uint32
    /** The fd_set of descriptors select() watches. */
    var allFds: set<int>
    var maxFd: int
    var ready: bool

    /**
     * Every tracked client is watched by select(), lies within the range
     * select() is asked to scan, and the client count respects the capacity.
     */
    ghost predicate Valid()
      reads this
    {
      && clients.Keys <= allFds
      && (forall fd :: fd in clients ==> fd <= maxFd)
      && |clients| <= capacity
    }

    /**
     * TcpSrv(): no clients and not ready; the server descriptor, capacity,
     * descriptor set and maximum descriptor are left indeterminate.
     */
    constructor ()
      ensures clients == map[] && !ready
      ensures Valid()
    {
      clients := map[];
      ready := false;
    }

    /**
     * Setup: stores the clamped capacity, then takes the results of socket(),
     * setsockopt(), bind() on the port and listen() with the backlog in turn,
     * stopping at the first failure. The descriptor set is emptied once a socket exists, and the
     * server is ready only when all four succeed.
     */
    method Setup(port: int32, backlog: int32, cap: int32, socketResult: int, reuseResult: int,
                 bind: (int, int32) -> int, listen: (int, int32) -> int)
      returns (out: Outcome<TcpSrvError>)
      modifies this
      ensures capacity == ClampCapacity(cap) && serverfd == socketResult
      ensures clients == old(clients) && maxFd == old(maxFd)
      ensures allFds == if socketResult < 0 then old(allFds) else {}
      ensures out.Pass? <==> Listens(port, backlog, socketResult, reuseResult, bind, listen)
      ensures ready == if out.Pass? then true else old(ready)
      ensures socketResult < 0 ==> out == Fail(SocketFailed)
      ensures socketResult >= 0 && reuseResult < 0 ==> out == Fail(ReuseFailed)
      ensures socketResult >= 0 && reuseResult >= 0 && bind(socketResult, port) < 0 ==> out == Fail(BindFailed(port))
      ensures socketResult >= 0 && reuseResult >= 0 && bind(socketResult, port) >= 0 && listen(socketResult, backlog) < 0 ==>
        out == Fail(ListenFailed)
      ensures old(clients) == map[] ==> Valid()
    {
      capacity := ClampCapacity(cap);
      serverfd := socketResult;
      if serverfd < 0 {
        return Fail(SocketFailed);
      }
      allFds := {};
      if reuseResult < 0 {
        return Fail(ReuseFailed);
      }
      if bind(serverfd, port) < 0 {
        return Fail(BindFailed(port));
      }
      if listen(serverfd, backlog) < 0 {
        return Fail(ListenFailed);
      }
      ready := true;
      out := Pass;
    }

    /** TcpSrv(port, backlog, capacity): a fresh server, then Setup. */
    static method Create(port: int32, backlog: int32, cap: int32, socketResult: int, reuseResult: int,
                         bind: (int, int32) -> int, listen: (int, int32) -> int)
      returns (srv: TcpSrv, out: Outcome<TcpSrvError>)
      ensures fresh(srv) && srv.clients == map[] && srv.Valid()
      ensures srv.capacity == ClampCapacity(cap) && srv.serverfd == socketResult
      ensures out.Pass? <==> Listens(port, backlog, socketResult, reuseResult, bind, listen)
      ensures srv.ready <==> out.Pass?
    {
      srv := new TcpSrv();
      out := srv.Setup(port, backlog, cap, socketResult, reuseResult, bind, listen);
    }

    /** TcpSrv(port, backlog): capacity 20. */
    static method CreateWithBacklog(port: int32, backlog: int32, socketResult: int, reuseResult: int,
                                    bind: (int, int32) -> int, listen: (int, int32) -> int)
      returns (srv: TcpSrv, out: Outcome<TcpSrvError>)
      ensures fresh(srv) && srv.clients == map[] && srv.Valid()
      ensures srv.capacity == DEFAULT_CAPACITY && srv.serverfd == socketResult
      ensures out.Pass? <==> Listens(port, backlog, socketResult, reuseResult, bind, listen)
      ensures srv.ready <==> out.Pass?
    {
      srv, out := Create(port, backlog, DEFAULT_CAPACITY as int32, socketResult, reuseResult, bind, listen);
    }

    /** TcpSrv(port): backlog 5 and capacity 20. */
    static method CreateOnPort(port: int32, socketResult: int, reuseResult: int,
                               bind: (int, int32) -> int, listen: (int, int32) -> int)
      returns (srv: TcpSrv, out: Outcome<TcpSrvError>)
      ensures fresh(srv) && srv.clients == map[] && srv.Valid()
      ensures srv.capacity == DEFAULT_CAPACITY && srv.serverfd == socketResult
      ensures out.Pass? <==> Listens(port, DEFAULT_BACKLOG, socketResult, reuseResult, bind, listen)
      ensures srv.ready <==> out.Pass?
    {
      srv, out := CreateWithBacklog(port, DEFAULT_BACKLOG, socketResult, reuseResult, bind, listen);
    }

    /** IsReady: whether the last Setup got the server listening. */
    function IsReady(): (b: bool)
      reads this
      ensures b <==> ready
    {
      ready
    }

    /** GetCapacity: the bound on simultaneous clients; Setup never stores more than FD_SETSIZE. */
    function GetCapacity(): (c: uint32)
      reads this
      ensures c == capacity
    {
      capacity
    }

    /** GetNumClients: how many clients are tracked; never above the capacity. */
    function GetNumClients(): (n: nat)
      reads this
      ensures n == |clients.Keys|
      ensures Valid() ==> n <= GetCapacity()
    {
      |clients|
    }

    /** GetClients: a copy of the client map (a Dafny map is a value, so it cannot alias). */
    function GetClients(): (m: map<int, SockAddr>)
      reads this
      ensures m.Keys == clients.Keys && forall fd :: fd in m ==> m[fd] == clients[fd]
    {
      clients
    }

    /**
     * Accept: below capacity, takes the result of accept(); a new descriptor
     * is mapped to its address, watched by select() and may raise maxFd. At
     * capacity, nothing happens and -1 is returned.
     */
    method Accept(acceptResult: int, addr: SockAddr) returns (r: Result<int, TcpSrvError>)
      requires acceptResult >= -1  // accept(2) returns a descriptor or -1
      modifies this
      ensures serverfd == old(serverfd) && capacity == old(capacity) && ready == old(ready)
      ensures |old(clients)| >= capacity ==> r == Ok(-1) && unchanged(this)
      ensures |old(clients)| < capacity && acceptResult == -1 ==> r == Err(AcceptFailed) && unchanged(this)
      ensures |old(clients)| < capacity && acceptResult != -1 ==>
        && r == Ok(acceptResult)
        && clients == old(clients)[acceptResult := addr]
        && maxFd == (if acceptResult > old(maxFd) then acceptResult else old(maxFd))
        && allFds == old(allFds) + {acceptResult}
      ensures maxFd >= old(maxFd)
      ensures old(Valid()) ==> Valid()
    {
      if |clients| < capacity {
        if acceptResult == -1 {
          return Err(AcceptFailed);
        }
        clients := clients[acceptResult := addr];
        maxFd := if acceptResult > maxFd then acceptResult else maxFd;
        allFds := allFds + {acceptResult};
        return Ok(acceptResult);
      }
      return Ok(-1);
    }

    /**
     * Send: for a tracked client, up to numTries write attempts; the first
     * that does not fail (even a partial write) ends it with 0. When all fail
     * the client is erased from the map (but stays in the descriptor set) and
     * -1 is returned. An untracked descriptor gives -2.
     */
    method Send(fd: int, buf: seq<byte>, write: (int, seq<byte>, nat) -> int, numTries: int32 := DEFAULT_TRIES)
      returns (r: int)
      modifies this
      ensures allFds == old(allFds) && maxFd == old(maxFd) && capacity == old(capacity)
      ensures serverfd == old(serverfd) && ready == old(ready)
      ensures fd !in old(clients) ==> r == -2 && clients == old(clients)
      ensures fd in old(clients) ==> (r == 0 || r == -1)
      ensures fd in old(clients) ==> (r == 0 <==> FirstSuccess(WriteAttempts(write, fd, buf), numTries).Some?)
      ensures r == 0 ==> clients == old(clients)
      ensures r == -1 ==> clients == old(clients) - {fd}
      ensures old(Valid()) ==> Valid()
    {
      if fd !in clients {
        return -2;
      }
      ghost var attempts := WriteAttempts(write, fd, buf);
      var tries := numTries;
      var attempt: nat := 0;
      while tries > 0
        invariant tries <= numTries && attempt == if numTries > 0 then numTries - tries else 0
        invariant forall k :: 0 <= k < attempt ==> attempts(k) < 0
        invariant clients == old(clients)
        decreases tries
      {
        if write(fd, buf, attempt) < 0 {
          tries := tries - 1;
          attempt := attempt + 1;
        } else {
          FirstSuccessAt(attempts, numTries, attempt);
          return 0;
        }
      }
      assert FirstSuccess(attempts, numTries).None?;
      clients := clients - {fd};
      return -1;
    }

    /** Send(fd, string): the message and its terminating 0. */
    method SendString(fd: int, msg: seq<byte>, write: (int, seq<byte>, nat) -> int, numTries: int32 := DEFAULT_TRIES)
      returns (r: int)
      modifies this
      ensures allFds == old(allFds) && maxFd == old(maxFd) && capacity == old(capacity)
      ensures fd !in old(clients) ==> r == -2 && clients == old(clients)
      ensures serverfd == old(serverfd) && ready == old(ready)
      ensures fd in old(clients) ==> (r == 0 || r == -1)
      ensures fd in old(clients) ==> (r == 0 <==> FirstSuccess(WriteAttempts(write, fd, msg + [0]), numTries).Some?)
      ensures r == 0 ==> clients == old(clients)
      ensures r == -1 ==> clients == old(clients) - {fd}
      ensures old(Valid()) ==> Valid()
    {
      r := Send(fd, msg + [0], write, numTries);
    }

    /**
     * Recv: for a tracked client, up to numTries read attempts. A positive
     * count is returned as is; end of stream (0) removes the client at once
     * and returns 0; when all attempts fail the client is removed and -1 is
     * returned. An untracked descriptor gives -2.
     */
    method Recv(fd: int, len: nat, read: (int, nat, nat) -> int, numTries: int32 := DEFAULT_TRIES)
      returns (r: int)
      modifies this
      ensures maxFd == old(maxFd) && capacity == old(capacity)
      ensures serverfd == old(serverfd) && ready == old(ready)
      ensures fd !in old(clients) ==> r == -2 && clients == old(clients) && allFds == old(allFds)
      ensures fd in old(clients) ==>
        var first := FirstSuccess(ReadAttempts(read, fd, len), numTries);
        && (first.None? ==> r == -1)
        && (first.Some? ==> r == read(fd, len, first.value))
      ensures r > 0 ==> clients == old(clients) && allFds == old(allFds)
      ensures r == 0 || r == -1 ==> clients == old(clients) - {fd} && allFds == old(allFds) - {fd}
      ensures old(Valid()) ==> Valid()
    {
      if fd !in clients {
        return -2;
      }
      ghost var attempts := ReadAttempts(read, fd, len);
      var tries := numTries;
      var attempt: nat := 0;
      while tries > 0
        invariant tries <= numTries && attempt == if numTries > 0 then numTries - tries else 0
        invariant forall k :: 0 <= k < attempt ==> attempts(k) < 0
        invariant clients == old(clients) && allFds == old(allFds)
        decreases tries
      {
        var numRead := read(fd, len, attempt);
        if numRead < 0 {
          tries := tries - 1;
          attempt := attempt + 1;
        } else if numRead == 0 {
          FirstSuccessAt(attempts, numTries, attempt);
          RemoveClient(fd);
          return 0;
        } else {
          FirstSuccessAt(attempts, numTries, attempt);
          return numRead;
        }
      }
      assert FirstSuccess(attempts, numTries).None?;
      RemoveClient(fd);
      return -1;
    }

    /**
     * Broadcast: Send (default tries) to every client, in ascending
     * descriptor order. The map is iterated while Send may erase the current
     * entry, which is undefined behaviour in C++; the model iterates over the
     * descriptors present at the start, which is what the loop evidently
     * means. `order` is the sequence of descriptors sent to.
     */
    method Broadcast(buf: seq<byte>, write: (int, seq<byte>, nat) -> int)
      returns (ghost order: seq<int>)
      modifies this
      ensures allFds == old(allFds) && maxFd == old(maxFd) && capacity == old(capacity)
      ensures serverfd == old(serverfd) && ready == old(ready)
      ensures Increasing(order) && (forall fd :: fd in order <==> fd in old(clients))
      ensures clients == map fd | fd in old(clients) && Delivers(write, fd, buf) :: old(clients)[fd]
      ensures old(Valid()) ==> Valid()
    {
      var rest := clients.Keys;
      order := [];
      assert clients == Survivors(old(clients), rest, write, buf);
      while rest != {}
        invariant rest <= old(clients).Keys
        invariant forall fd :: fd in order <==> fd in old(clients) && fd !in rest
        invariant Increasing(order)
        invariant forall i, y :: 0 <= i < |order| && y in rest ==> order[i] < y
        invariant clients == Survivors(old(clients), rest, write, buf)
        invariant allFds == old(allFds) && maxFd == old(maxFd) && capacity == old(capacity)
        invariant serverfd == old(serverfd) && ready == old(ready)
        invariant old(Valid()) ==> Valid()
        decreases rest
      {
        HasLeast(rest);
        var fd :| fd in rest && forall y :: y in rest ==> fd <= y;
        SurvivorsStep(old(clients), rest, fd, write, buf);
        AppendLeast(order, rest, fd);
        var r := Send(fd, buf, write);
        rest := rest - {fd};
        order := order + [fd];
      }
    }

    /** Broadcast(string): the message and its terminating 0 to every client. */
    method BroadcastString(mesg: seq<byte>, write: (int, seq<byte>, nat) -> int)
      returns (ghost order: seq<int>)
      modifies this
      ensures allFds == old(allFds) && maxFd == old(maxFd) && capacity == old(capacity)
      ensures serverfd == old(serverfd) && ready == old(ready)
      ensures Increasing(order) && (forall fd :: fd in order <==> fd in old(clients))
      ensures clients == map fd | fd in old(clients) && Delivers(write, fd, mesg + [0]) :: old(clients)[fd]
      ensures old(Valid()) ==> Valid()
    {
      order := Broadcast(mesg + [0], write);
    }

    /** RemoveClient: forgets the descriptor in both the map and the descriptor set. */
    method RemoveClient(fd: int)
      modifies this
      ensures clients == old(clients) - {fd} && allFds == old(allFds) - {fd}
      ensures maxFd == old(maxFd) && capacity == old(capacity)
      ensures serverfd == old(serverfd) && ready == old(ready)
      ensures old(Valid()) ==> Valid()
    {
      allFds := allFds - {fd};
      clients := clients - {fd};
    }

    /**
     * select(maxFd + 1, copy of allFds): the kernel can leave marked only the
     * descriptors it was handed that lie below nfds = maxFd + 1.
     */
    predicate Listening(fd: int, marked: set<int>): (b: bool)
      reads this
      ensures b <==> fd in allFds * marked && 0 <= fd < maxFd + 1
    {
      fd in allFds && 0 <= fd <= maxFd && fd in marked
    }

    /**
     * GetUnprocessedClients: with no clients, an empty list and no select().
     * Otherwise select() answers with `nready` and the set of descriptors it
     * marks; -1 is an error. The result is the first `nready` tracked clients,
     * in ascending order, that select() left marked.
     */
    method GetUnprocessedClients(nready: int, marked: set<int>) returns (r: Result<seq<int>, TcpSrvError>)
      requires nready >= -1  // select(2) returns a count or -1
      ensures |clients| == 0 ==> r == Ok([])
      ensures |clients| > 0 && nready == -1 ==> r == Err(SelectFailed)
      ensures |clients| > 0 && nready >= 0 ==> r.Ok?
      ensures r.Ok? ==> Increasing(r.value) && |r.value| <= if nready < 0 then 0 else nready
      ensures r.Ok? ==> forall fd :: fd in r.value ==> fd in clients && Listening(fd, marked)
      ensures r.Ok? && |clients| > 0 ==> forall fd :: fd in clients && Listening(fd, marked) && fd !in r.value ==>
        |r.value| == nready && forall i :: 0 <= i < |r.value| ==> r.value[i] < fd
    {
      if |clients| == 0 {
        return Ok([]);
      }
      if nready == -1 {
        return Err(SelectFailed);
      }
      var rest := clients.Keys;
      var readyFds: seq<int> := [];
      var count := 0;
      while count < nready && rest != {}
        invariant rest <= clients.Keys
        invariant count == |readyFds| <= nready
        invariant Increasing(readyFds)
        invariant forall fd :: fd in readyFds ==> fd in clients && fd !in rest && Listening(fd, marked)
        invariant forall i, y :: 0 <= i < |readyFds| && y in rest ==> readyFds[i] < y
        invariant forall fd :: fd in clients && fd !in rest && Listening(fd, marked) ==> fd in readyFds
        decreases rest
      {
        HasLeast(rest);
        var fd :| fd in rest && forall y :: y in rest ==> fd <= y;
        if fd in allFds && 0 <= fd <= maxFd && fd in marked {
          readyFds := readyFds + [fd];
          count := count + 1;
        }
        rest := rest - {fd};
      }
      return Ok(readyFds);
    }

    /**
     * ~TcpSrv(): closes every client descriptor, in ascending order, then the
     * server descriptor. `closed` lists the descriptors passed to close().
     */
    method Destroy() returns (closed: seq<int>)
      ensures |closed| == |clients| + 1 && closed[|closed| - 1] == serverfd
      ensures Increasing(closed[..|closed| - 1])
      ensures forall fd :: fd in closed[..|closed| - 1] <==> fd in clients
    {
      var rest := clients.Keys;
      closed := [];
      while rest != {}
        invariant rest <= clients.Keys
        invariant Increasing(closed)
        invariant forall fd :: fd in closed <==> fd in clients && fd !in rest
        invariant forall i, y :: 0 <= i < |closed| && y in rest ==> closed[i] < y
        invariant |closed| + |rest| == |clients|
        decreases rest
      {
        HasLeast(rest);
        var fd :| fd in rest && forall y :: y in rest ==> fd <= y;
        closed := closed + [fd];
        rest := rest - {fd};
      }
      closed := closed + [serverfd];
    }
  }
}
