/**
 * NetStream: typed reads and writes over one connected socket.
 *
 * A stream holds a descriptor and a flag saying whether one is bound; every
 * transfer checks the flag first. Raw Write and Read loop over partial
 * transfers until exactly the requested number of bytes has moved, and one
 * failed transfer aborts the whole call. The typed operators encode through
 * module NetStreamCodec. A process-wide registry keeps two live streams from
 * owning the same descriptor.
 */
module NetStream {
  import opened Wrappers
  import opened ByteOrder
  import opened NetStreamCodec

  predicate Chunk(n: int, max: int) {
    n == -1 || 1 <= n <= max
  }

  function Min(a: int, b: int): int {
    if a < b then a else b
  }

  /**
   * The connected byte stream behind a descriptor, as the partial-transfer
   * system calls see it. `sent` is every byte write() has accepted, in order;
   * `pending` is what the peer has sent that read() has not yet delivered.
   * How much one call moves, and whether it fails, is the kernel's choice:
   * the methods below pick it nondeterministically within what write(2),
   * read(2) and close(2) promise for a blocking socket. A read with nothing
   * pending can only fail here; the source would spin on 0-byte reads.
   */
  class Channel {
    var sent: seq<byte>
    var pending: seq<byte>

    constructor (incoming: seq<byte>)
      ensures sent == [] && pending == incoming
    {
      sent := [];
      pending := incoming;
    }

    /** write(fd, data, |data|): accepts a non-empty prefix of data, or returns -1. */
    method WriteSome(data: seq<byte>) returns (n: int)
      requires |data| > 0
      modifies this
      ensures Chunk(n, |data|)
      ensures sent == old(sent) + (if n == -1 then [] else data[..n])
      ensures pending == old(pending)
    {
      assert Chunk(-1, |data|);
      var c :| Chunk(c, |data|);
      assert Chunk(c, |data|);  // unfolds Chunk for the bound chunk size, so data[..c] is in range
      n := c;
      if n != -1 {
        sent := sent + data[..n];
      }
    }

    /**
     * read(fd, &buf[from], max): moves 1..max pending bytes into buf at
     * `from`, or returns -1 and moves nothing.
     */
    method ReadSome(buf: array<byte>, from: nat, max: nat) returns (n: int)
      requires max > 0 && from + max <= buf.Length
      modifies this, buf
      ensures Chunk(n, max)
      ensures n == -1 ==> pending == old(pending) && buf[..] == old(buf[..])
      ensures n != -1 ==> n <= |old(pending)| && pending == old(pending)[n..]
      ensures n != -1 ==> buf[from..from + n] == old(pending)[..n]
      ensures n != -1 ==> buf[..from] == old(buf[..from]) && buf[from + n..] == old(buf[from + n..])
      ensures sent == old(sent)
    {
      assert Chunk(-1, Min(max, |pending|));
      var c :| Chunk(c, Min(max, |pending|));
      assert Chunk(c, Min(max, |pending|));  // unfolds Chunk for the bound size, so pending[..c] is in range
      n := c;
      if n != -1 {
        forall i | 0 <= i < n {
          buf[from + i] := pending[i];
        }
        pending := pending[n..];
      }
    }

    /** close(fd): 0 on success, -1 on failure. */
    method CloseFd() returns (rc: int)
      ensures rc == 0 || rc == -1
    {
      assert 0 == 0 || 0 == -1;
      var c :| c == 0 || c == -1;
      rc := c;
    }
  }

  // ---------------------------------------------------------------------------
  // The registry of owned descriptors

  predicate NoDuplicates(s: seq<int>) {
    forall i, j :: 0 <= i < j < |s| ==> s[i] != s[j]
  }

  /** vector::erase(find(s, x)): s without the first occurrence of x. */
  function RemoveFirst(s: seq<int>, x: int): (r: seq<int>)
    requires x in s
    ensures |r| == |s| - 1
    ensures multiset(r) == multiset(s) - multiset{x}
  {
    if s[0] == x then
      assert s == [s[0]] + s[1..];
      s[1..]
    else
      assert s == [s[0]] + s[1..];
      [s[0]] + RemoveFirst(s[1..], x)
  }

  lemma NoDuplicatesTail(s: seq<int>)
    requires |s| > 0 && NoDuplicates(s)
    ensures NoDuplicates(s[1..]) && s[0] !in s[1..]
  {
    var t := s[1..];
    forall i, j | 0 <= i < j < |t| ensures t[i] != t[j] {
      assert t[i] == s[i + 1] && t[j] == s[j + 1];
    }
    forall j | 0 <= j < |t| ensures t[j] != s[0] {
      assert t[j] == s[j + 1];
    }
  }

  lemma NoDuplicatesCons(a: int, t: seq<int>)
    requires NoDuplicates(t) && a !in t
    ensures NoDuplicates([a] + t)
  {
    var s := [a] + t;
    forall i, j | 0 <= i < j < |s| ensures s[i] != s[j] {
      assert s[j] == t[j - 1];
      if i > 0 {
        assert s[i] == t[i - 1];
      }
    }
  }

  /** Removing an owned descriptor keeps the list duplicate-free and forgets it entirely. */
  lemma {:induction false} RemoveFirstDistinct(s: seq<int>, x: int)
    requires x in s && NoDuplicates(s)
    ensures NoDuplicates(RemoveFirst(s, x)) && x !in RemoveFirst(s, x)
  {
    NoDuplicatesTail(s);
    if s[0] != x {
      var t := s[1..];
      RemoveFirstDistinct(t, x);
      var r := RemoveFirst(t, x);
      assert s[0] !in r by {
        assert multiset(t)[s[0]] == 0;
        assert multiset(r)[s[0]] == 0;
      }
      NoDuplicatesCons(s[0], r);
      assert RemoveFirst(s, x) == [s[0]] + r;
      assert x !in [s[0]] + r;
    }
  }

  /**
   * The destructor as written: erase(find(s, x)) with no check that x was
   * found. Erasing the end iterator is undefined behaviour, shown as None.
   */
  function EraseAsWritten(s: seq<int>, x: int): (r: Option<seq<int>>)
    ensures r.Some? <==> x in s
    ensures r.Some? ==> r.value == RemoveFirst(s, x)
  {
    if x in s then Some(RemoveFirst(s, x)) else None
  }

  /** A stream made by NetStream() and bound by SetSocket is never registered. */
  lemma UnregisteredDestroyIsUndefined(fd: int)
    ensures EraseAsWritten([], fd).None?
  {
  }

  /** The erase the destructor evidently intends: the owned descriptor goes, nothing else. */
  function EraseOwned(s: seq<int>, x: int): (r: seq<int>)
    ensures x in s ==> r == RemoveFirst(s, x)
    ensures x !in s ==> r == s
    ensures EraseAsWritten(s, x).Some? ==> r == EraseAsWritten(s, x).value
  {
    if x in s then RemoveFirst(s, x) else s
  }

  /**
   * The static list `sockfds` every NetStream shares: the descriptors owned by
   * live streams, in the order they were bound.
   */
  class Registry {
    var fds: seq<int>

    constructor ()
      ensures fds == []
    {
      fds := [];
    }

    /** No descriptor is owned twice. */
    ghost predicate Valid()
      reads this
    {
      NoDuplicates(fds)
    }
  }

  // ---------------------------------------------------------------------------
  // What a transfer leaves behind

  /**
   * A writing operation that was to put `enc` on the wire: an unbound stream
   * writes nothing and reports NoSocketError; otherwise either all of enc was
   * sent, or a write failed and a proper prefix of it was sent.
   */
  ghost predicate Wrote(bound: bool, before: seq<byte>, after: seq<byte>, enc: seq<byte>,
                        out: Outcome<NetStreamError>)
  {
    if !bound then out == Fail(NoSocket) && after == before
    else match out
      case Pass => after == before + enc
      case Fail(e) => e == WriteFailed && before <= after < before + enc
  }

  /**
   * A reading operation that needed `n` bytes: an unbound stream reads nothing
   * and reports NoSocketError; otherwise either exactly n bytes came off the
   * front of the pending input, or a read failed after fewer than n.
   */
  ghost predicate Took(bound: bool, before: seq<byte>, after: seq<byte>, n: nat,
                       failure: Option<NetStreamError>)
  {
    if !bound then failure == Some(NoSocket) && after == before
    else match failure
      case None => n <= |before| && after == before[n..]
      case Some(e) =>
        e == ReadFailed && |after| <= |before| && after == before[|before| - |after|..]
        && |before| - |after| < n
  }

  function FailureOf<T>(r: Result<T, NetStreamError>): Option<NetStreamError> {
    if r.Ok? then None else Some(r.error)
  }

  function OutcomeFailure(out: Outcome<NetStreamError>): Option<NetStreamError> {
    if out.Pass? then None else Some(out.error)
  }

  // ---------------------------------------------------------------------------

  class NetStream {
    var sockfd: int
    var sockset: bool
    /** Stands for the static member `sockfds`: one registry shared by all streams. */
    const registry: Registry

    /** NetStream(): unbound until SetSocket; the descriptor is left indeterminate. */
    constructor (registry: Registry)
      ensures !sockset && this.registry == registry
    {
      this.registry := registry;
      sockset := false;
    }

    /**
     * NetStream(int sockfd): refused, with nothing changed, when a live stream
     * already owns the descriptor; otherwise binds it and records it.
     */
    static method Open(registry: Registry, fd: int) returns (r: Result<NetStream, NetStreamError>)
      modifies registry
      ensures fd in old(registry.fds) ==> r == Err(AlreadyOwned) && registry.fds == old(registry.fds)
      ensures fd !in old(registry.fds) ==>
        && r.Ok? && fresh(r.value) && r.value.registry == registry
        && r.value.sockfd == fd && r.value.sockset
        && registry.fds == old(registry.fds) + [fd]
      ensures old(registry.Valid()) ==> registry.Valid()
    {
      if fd in registry.fds {
        return Err(AlreadyOwned);
      }
      var s := new NetStream(registry);
      s.SetSocket(fd);
      registry.fds := registry.fds + [fd];
      return Ok(s);
    }

    /**
     * ~NetStream(): drops this stream's descriptor from the registry; it does
     * not close the socket. When the descriptor is not in the registry, the
     * registry is left as it is (see EraseAsWritten for the source's
     * unchecked erase). Like the source, it does not check that this stream
     * is the one that registered the descriptor.
     */
    method Destroy()
      modifies registry
      ensures registry.fds == EraseOwned(old(registry.fds), sockfd)
      ensures old(registry.Valid()) ==> registry.Valid() && sockfd !in registry.fds
    {
      if registry.Valid() && sockfd in registry.fds {
        RemoveFirstDistinct(registry.fds, sockfd);
      }
      registry.fds := EraseOwned(registry.fds, sockfd);
    }

    /** Binds a descriptor without consulting or updating the registry. */
    method SetSocket(fd: int)
      modifies this
      ensures sockfd == fd && sockset
      ensures registry.fds == old(registry.fds)
    {
      sockfd := fd;
      sockset := true;
    }

    /** Whether a descriptor is bound: exactly when checkSockSet lets an operation through. */
    function SocketSet(): (b: bool)
      reads this
      ensures b <==> CheckSockSet().Pass?
    {
      sockset
    }

    /** checkSockSet: NoSocketError exactly when no descriptor is bound. */
    function CheckSockSet(): (out: Outcome<NetStreamError>)
      reads this
      ensures out.Pass? <==> sockset
      ensures out.Fail? ==> out.error == NoSocket
    {
      if sockset then Pass else Fail(NoSocket)
    }

    /**
     * Close: needs a bound descriptor; clears the flag when close() succeeds
     * and keeps it when close() fails. The registry is not touched.
     */
    method Close(ch: Channel) returns (out: Outcome<NetStreamError>)
      modifies this
      ensures sockfd == old(sockfd) && registry.fds == old(registry.fds)
      ensures !old(sockset) ==> out == Fail(NoSocket) && !sockset
      ensures old(sockset) ==> (out == Pass && !sockset) || (out == Fail(CloseFailed) && sockset)
    {
      out := CheckSockSet();
      if out.Fail? {
        return;
      }
      var rc := ch.CloseFd();
      if rc == -1 {
        return Fail(CloseFailed);
      }
      sockset := false;
    }

    // -------------------------------------------------------------------------
    // Raw transfers

    /** Write: sends all of buf through as many partial writes as it takes. */
    method Write(ch: Channel, buf: seq<byte>) returns (out: Outcome<NetStreamError>)
      modifies ch
      ensures ch.pending == old(ch.pending)
      ensures Wrote(sockset, old(ch.sent), ch.sent, buf, out)
    {
      out := CheckSockSet();
      if out.Fail? {
        return;
      }
      var total := 0;
      while total != |buf|
        invariant 0 <= total <= |buf|
        invariant ch.sent == old(ch.sent) + buf[..total]
        invariant ch.pending == old(ch.pending)
        decreases |buf| - total
      {
        var sent := ch.WriteSome(buf[total..]);
        if sent == -1 {
          return Fail(WriteFailed);
        }
        assert buf[..total] + buf[total..][..sent] == buf[..total + sent];
        total := total + sent;
      }
      assert buf[..total] == buf;
    }

    /** Read: fills buf[..len] through as many partial reads as it takes. */
    method Read(ch: Channel, buf: array<byte>, len: nat) returns (out: Outcome<NetStreamError>)
      requires len <= buf.Length
      modifies ch, buf
      ensures ch.sent == old(ch.sent)
      ensures Took(sockset, old(ch.pending), ch.pending, len, OutcomeFailure(out))
      ensures var k := |old(ch.pending)| - |ch.pending|;
        0 <= k <= len && buf[..k] == old(ch.pending)[..k] && buf[k..] == old(buf[k..])
    {
      out := CheckSockSet();
      if out.Fail? {
        return;
      }
      var total := 0;
      while total != len
        invariant 0 <= total <= len
        invariant ch.sent == old(ch.sent)
        invariant total <= |old(ch.pending)| && ch.pending == old(ch.pending)[total..]
        invariant buf[..total] == old(ch.pending)[..total]
        invariant buf[total..] == old(buf[total..])
        decreases len - total
      {
        var received := ch.ReadSome(buf, total, len - total);
        if received == -1 {
          return Fail(ReadFailed);
        }
        assert buf[..total + received] == buf[..total] + buf[total..total + received];
        assert old(ch.pending)[..total + received]
            == old(ch.pending)[..total] + old(ch.pending)[total..][..received];
        total := total + received;
      }
    }

    // -------------------------------------------------------------------------
    // Fixed-width unsigned integers

    method PutU16(ch: Channel, us: u16) returns (out: Outcome<NetStreamError>)
      modifies ch
      ensures ch.pending == old(ch.pending)
      ensures Wrote(sockset, old(ch.sent), ch.sent, EncodeU16(us), out)
    {
      out := CheckSockSet();
      if out.Fail? {
        return;
      }
      out := Write(ch, EncodeU16(us));
    }

    method GetU16(ch: Channel) returns (r: Result<u16, NetStreamError>)
      modifies ch
      ensures ch.sent == old(ch.sent)
      ensures Took(sockset, old(ch.pending), ch.pending, 2, FailureOf(r))
      ensures r.Ok? ==> r.value == DecodeU16(old(ch.pending)[..2])
    {
      if !sockset {
        return Err(NoSocket);
      }
      var net := new byte[2];
      var out := Read(ch, net, 2);
      if out.Fail? {
        return Err(out.error);
      }
      assert |old(ch.pending)| - |ch.pending| == 2;
      assert net[..] == net[..2] == old(ch.pending)[..2];
      return Ok(DecodeU16(net[..]));
    }

    method PutU32(ch: Channel, ui: u32) returns (out: Outcome<NetStreamError>)
      modifies ch
      ensures ch.pending == old(ch.pending)
      ensures Wrote(sockset, old(ch.sent), ch.sent, EncodeU32(ui), out)
    {
      out := Write(ch, EncodeU32(ui));
    }

    method GetU32(ch: Channel) returns (r: Result<u32, NetStreamError>)
      modifies ch
      ensures ch.sent == old(ch.sent)
      ensures Took(sockset, old(ch.pending), ch.pending, 4, FailureOf(r))
      ensures r.Ok? ==> r.value == DecodeU32(old(ch.pending)[..4])
    {
      if !sockset {
        return Err(NoSocket);
      }
      var net := new byte[4];
      var out := Read(ch, net, 4);
      if out.Fail? {
        return Err(out.error);
      }
      assert |old(ch.pending)| - |ch.pending| == 4;
      assert net[..] == net[..4] == old(ch.pending)[..4];
      return Ok(DecodeU32(net[..]));
    }

    /** operator<<(uint64_t): the union's high word, then its low word. */
    method PutU64(ch: Channel, ul: u64) returns (out: Outcome<NetStreamError>)
      modifies ch
      ensures ch.pending == old(ch.pending)
      ensures Wrote(sockset, old(ch.sent), ch.sent, EncodeU64(ul), out)
    {
      Pow256Values();
      var w := UnionWords(ul);
      out := PutU32(ch, w.1);
      if out.Fail? {
        return;
      }
      out := PutU32(ch, w.0);
    }

    /** operator>>(uint64_t&): reads low_high[1], then low_high[0], then the whole union. */
    method GetU64(ch: Channel) returns (r: Result<u64, NetStreamError>)
      modifies ch
      ensures ch.sent == old(ch.sent)
      ensures Took(sockset, old(ch.pending), ch.pending, 8, FailureOf(r))
      ensures r.Ok? ==> r.value == DecodeU64(old(ch.pending)[..8])
    {
      Pow256Values();
      var high := GetU32(ch);
      if high.Err? {
        return Err(high.error);
      }
      var low := GetU32(ch);
      if low.Err? {
        return Err(low.error);
      }
      assert old(ch.pending)[..8][..4] == old(ch.pending)[..4];
      assert old(ch.pending)[..8][4..] == old(ch.pending)[4..][..4];
      return Ok(UnionJoin(low.value, high.value));
    }

    // -------------------------------------------------------------------------
    // Native integers, dispatched by width

    /** castBySizeOut: sends v through the encoder for its width; CastError otherwise, before any I/O. */
    method CastBySizeOut(ch: Channel, v: int, size: nat) returns (out: Outcome<NetStreamError>)
      requires FitsIn(v, size)
      modifies ch
      ensures ch.pending == old(ch.pending)
      ensures NativeEncoding(v, size).Err? ==> out == Fail(CastFailed) && ch.sent == old(ch.sent)
      ensures NativeEncoding(v, size).Ok? ==> Wrote(sockset, old(ch.sent), ch.sent, NativeEncoding(v, size).value, out)
    {
      Pow256Values();
      match size
      case 2 => out := PutU16(ch, Unsigned(v, 2));
      case 4 => out := PutU32(ch, Unsigned(v, 4));
      case 8 =>
        U64IsBigEndian(Unsigned(v, 8));
        out := PutU64(ch, Unsigned(v, 8));
      case _ => out := Fail(CastFailed);
    }

    /** castBySizeIn: reads a value of the given width; CastError otherwise, before any I/O. */
    method CastBySizeIn(ch: Channel, size: nat) returns (r: Result<int, NetStreamError>)
      modifies ch
      ensures ch.sent == old(ch.sent)
      ensures !IsNativeWidth(size) ==> r == Err(CastFailed) && ch.pending == old(ch.pending)
      ensures IsNativeWidth(size) ==> Took(sockset, old(ch.pending), ch.pending, size, FailureOf(r))
      ensures IsNativeWidth(size) && r.Ok? ==> r.value == NativeDecoding(old(ch.pending)[..size])
    {
      Pow256Values();
      match size
      case 2 =>
        var x := GetU16(ch);
        r := if x.Ok? then Ok(Signed(x.value, 2)) else Err(x.error);
      case 4 =>
        var x := GetU32(ch);
        r := if x.Ok? then Ok(Signed(x.value, 4)) else Err(x.error);
      case 8 =>
        var x := GetU64(ch);
        r := if x.Ok? then Ok(Signed(x.value, 8)) else Err(x.error);
      case _ =>
        r := Err(CastFailed);
    }

    method PutShort(ch: Channel, s: i16) returns (out: Outcome<NetStreamError>)
      modifies ch
      ensures ch.pending == old(ch.pending)
      ensures FitsIn(s, SHORT_SIZE) && NativeEncoding(s, SHORT_SIZE).Ok?
      ensures Wrote(sockset, old(ch.sent), ch.sent, NativeEncoding(s, SHORT_SIZE).value, out)
    {
      Pow256Values();
      out := CastBySizeOut(ch, s, SHORT_SIZE);
    }

    method GetShort(ch: Channel) returns (r: Result<i16, NetStreamError>)
      modifies ch
      ensures ch.sent == old(ch.sent)
      ensures Took(sockset, old(ch.pending), ch.pending, SHORT_SIZE, FailureOf(r))
      ensures r.Ok? ==> r.value == NativeDecoding(old(ch.pending)[..SHORT_SIZE])
    {
      Pow256Values();
      var x := CastBySizeIn(ch, SHORT_SIZE);
      r := if x.Ok? then Ok(x.value as i16) else Err(x.error);
    }

    method PutInt(ch: Channel, i: i32) returns (out: Outcome<NetStreamError>)
      modifies ch
      ensures ch.pending == old(ch.pending)
      ensures FitsIn(i, INT_SIZE) && NativeEncoding(i, INT_SIZE).Ok?
      ensures Wrote(sockset, old(ch.sent), ch.sent, NativeEncoding(i, INT_SIZE).value, out)
    {
      Pow256Values();
      out := CastBySizeOut(ch, i, INT_SIZE);
    }

    method GetInt(ch: Channel) returns (r: Result<i32, NetStreamError>)
      modifies ch
      ensures ch.sent == old(ch.sent)
      ensures Took(sockset, old(ch.pending), ch.pending, INT_SIZE, FailureOf(r))
      ensures r.Ok? ==> r.value == NativeDecoding(old(ch.pending)[..INT_SIZE])
    {
      Pow256Values();
      var x := CastBySizeIn(ch, INT_SIZE);
      r := if x.Ok? then Ok(x.value as i32) else Err(x.error);
    }

    method PutLong(ch: Channel, l: i64) returns (out: Outcome<NetStreamError>)
      modifies ch
      ensures ch.pending == old(ch.pending)
      ensures FitsIn(l, LONG_SIZE) && NativeEncoding(l, LONG_SIZE).Ok?
      ensures Wrote(sockset, old(ch.sent), ch.sent, NativeEncoding(l, LONG_SIZE).value, out)
    {
      Pow256Values();
      out := CastBySizeOut(ch, l, LONG_SIZE);
    }

    method GetLong(ch: Channel) returns (r: Result<i64, NetStreamError>)
      modifies ch
      ensures ch.sent == old(ch.sent)
      ensures Took(sockset, old(ch.pending), ch.pending, LONG_SIZE, FailureOf(r))
      ensures r.Ok? ==> r.value == NativeDecoding(old(ch.pending)[..LONG_SIZE])
    {
      Pow256Values();
      var x := CastBySizeIn(ch, LONG_SIZE);
      r := if x.Ok? then Ok(x.value as i64) else Err(x.error);
    }

    // -------------------------------------------------------------------------
    // Characters and strings

    /** operator<<(char): one raw byte. */
    method PutChar(ch: Channel, c: byte) returns (out: Outcome<NetStreamError>)
      modifies ch
      ensures ch.pending == old(ch.pending)
      ensures Wrote(sockset, old(ch.sent), ch.sent, [c], out)
    {
      out := Write(ch, [c]);
    }

    /** operator>>(char&): one raw byte. */
    method GetChar(ch: Channel) returns (r: Result<byte, NetStreamError>)
      modifies ch
      ensures ch.sent == old(ch.sent)
      ensures Took(sockset, old(ch.pending), ch.pending, 1, FailureOf(r))
      ensures r.Ok? ==> r.value == old(ch.pending)[0]
    {
      var b := new byte[1];
      var out := Read(ch, b, 1);
      if out.Fail? {
        return Err(out.error);
      }
      return Ok(b[0]);
    }

    /** operator<<(string): the bytes and one terminating 0. */
    method PutString(ch: Channel, s: seq<byte>) returns (out: Outcome<NetStreamError>)
      modifies ch
      ensures ch.pending == old(ch.pending)
      ensures Wrote(sockset, old(ch.sent), ch.sent, EncodeString(s), out)
    {
      out := Write(ch, EncodeString(s));
    }

    /** operator<<(const char *): the C string's bytes as a std::string. */
    method PutCString(ch: Channel, c: seq<byte>) returns (out: Outcome<NetStreamError>)
      requires 0 in c  // a C string is terminated
      modifies ch
      ensures ch.pending == old(ch.pending)
      ensures Wrote(sockset, old(ch.sent), ch.sent, EncodeString(CString(c)), out)
    {
      out := PutString(ch, CString(c));
    }

    /**
     * operator>>(string&): empties the target, then reads one byte at a time,
     * appending each, until it has appended a 0. The result is every byte
     * consumed, terminator included; on failure, the bytes read before it.
     */
    method GetString(ch: Channel) returns (str: seq<byte>, out: Outcome<NetStreamError>)
      modifies ch
      ensures ch.sent == old(ch.sent)
      ensures |ch.pending| <= |old(ch.pending)|
      ensures ch.pending == old(ch.pending)[|old(ch.pending)| - |ch.pending|..]
      ensures str == old(ch.pending)[..|old(ch.pending)| - |ch.pending|]
      ensures !sockset ==> out == Fail(NoSocket) && str == []
      ensures sockset && out.Pass? ==> DecodeString(old(ch.pending)) == Some(str)
      ensures sockset && out.Fail? ==> out.error == ReadFailed && 0 !in str
    {
      var c: byte := 10;  // '\n': anything but 0
      str := [];
      while c != 0
        invariant ch.sent == old(ch.sent)
        invariant |str| <= |old(ch.pending)| && str == old(ch.pending)[..|str|]
        invariant ch.pending == old(ch.pending)[|str|..]
        invariant c != 0 ==> 0 !in str
        invariant c == 0 ==> EndsAtFirstNul(str)
        invariant !sockset ==> str == []
        decreases |ch.pending|
      {
        var r := GetChar(ch);
        if r.Err? {
          return str, Fail(r.error);
        }
        c := r.value;
        assert old(ch.pending)[..|str| + 1] == str + [c];
        str := str + [c];
      }
      assert old(ch.pending) == str + ch.pending;
      DecodeStringPrefix(str, ch.pending);
      out := Pass;
    }

    /** operator<<(wstring): each unit promoted to int, then a zero unit. */
    method PutWString(ch: Channel, ws: seq<wchar>) returns (out: Outcome<NetStreamError>)
      modifies ch
      ensures ch.pending == old(ch.pending)
      ensures Wrote(sockset, old(ch.sent), ch.sent, EncodeWString(ws), out)
    {
      var i := 0;
      while i < |ws|
        invariant 0 <= i <= |ws|
        invariant ch.sent == old(ch.sent) + EncodeUnits(ws[..i])
        invariant ch.pending == old(ch.pending)
        invariant !sockset ==> i == 0
      {
        EncodeUnitsStep(ws, i);
        out := PutUnit(ch, ws[i], old(ch.sent), EncodeUnits(ws[..i]), EncodeWString(ws));
        if out.Fail? {
          return;
        }
        i := i + 1;
      }
      assert ws[..i] == ws;
      out := PutUnit(ch, 0, old(ch.sent), EncodeUnits(ws), EncodeWString(ws));
    }

    /** operator<<(const wchar_t *): the units before the first zero unit, then a zero unit. */
    method PutWCString(ch: Channel, c: seq<wchar>) returns (out: Outcome<NetStreamError>)
      requires 0 in c  // a C string is terminated
      modifies ch
      ensures ch.pending == old(ch.pending)
      ensures Wrote(sockset, old(ch.sent), ch.sent, EncodeWString(WCString(c)), out)
    {
      ghost var ws := WCString(c);
      var i := 0;
      while c[i] != 0
        invariant 0 <= i <= |ws| && c[..i] == ws[..i]
        invariant ch.sent == old(ch.sent) + EncodeUnits(ws[..i])
        invariant ch.pending == old(ch.pending)
        invariant !sockset ==> i == 0
        decreases |ws| - i
      {
        WCStringScan(c, i);
        EncodeUnitsStep(ws, i);
        out := PutUnit(ch, c[i], old(ch.sent), EncodeUnits(ws[..i]), EncodeWString(ws));
        if out.Fail? {
          return;
        }
        i := i + 1;
      }
      WCStringScan(c, i);
      assert ws[..i] == ws;
      out := PutUnit(ch, 0, old(ch.sent), EncodeUnits(ws), EncodeWString(ws));
    }

    /**
     * `*this << wc` for one wide unit: operator<<(int) on the promoted value.
     * Stated against the string being sent: `done` of `whole` is already on
     * the wire, and this unit comes next.
     */
    method PutUnit(ch: Channel, wc: wchar, ghost s0: seq<byte>, ghost done: seq<byte>,
                   ghost whole: seq<byte>) returns (out: Outcome<NetStreamError>)
      requires ch.sent == s0 + done && done + EncodeUnit(wc) <= whole
      requires !sockset ==> done == []
      modifies ch
      ensures ch.pending == old(ch.pending)
      ensures out.Pass? ==> sockset && ch.sent == s0 + (done + EncodeUnit(wc))
      ensures out.Fail? ==> Wrote(sockset, s0, ch.sent, whole, out)
    {
      out := PutInt(ch, wc);
      assert NativeEncoding(wc, INT_SIZE).value == EncodeUnit(wc);
      AppendAssoc(s0, done, EncodeUnit(wc));
      if out.Fail? && sockset {
        FailedWithin(s0, done, EncodeUnit(wc), whole, ch.sent);
      }
    }

    /**
     * castBySizeIn(&wc, sizeof(wchar_t)) on a bound stream: one wide unit off
     * the wire. Stated against the whole input: `consumed` of it is already read.
     */
    method GetUnit(ch: Channel, ghost consumed: seq<byte>, ghost input: seq<byte>)
      returns (r: Result<wchar, NetStreamError>)
      requires sockset && input == consumed + ch.pending
      modifies ch
      ensures ch.sent == old(ch.sent)
      ensures r.Ok? ==> input == (consumed + EncodeUnit(r.value)) + ch.pending
      ensures r.Err? ==> r.error == ReadFailed && |ch.pending| <= |input|
      ensures r.Err? ==> ch.pending == input[|input| - |ch.pending|..]
    {
      Pow256Values();
      var x := CastBySizeIn(ch, WCHAR_SIZE);
      if x.Err? {
        SuffixOfAppend(consumed, old(ch.pending), ch.pending);
        return Err(x.error);
      }
      ghost var b := old(ch.pending)[..4];
      assert x.value == DecodeUnit(b);
      assert old(ch.pending) == b + ch.pending;
      UnitOnto(b);
      r := Ok(x.value as wchar);
      AppendAssoc(consumed, EncodeUnit(r.value), ch.pending);
    }

    /**
     * operator>>(wstring&): does NOT empty the target; reads units through
     * castBySizeIn and appends each, until it has appended a zero unit.
     */
    method GetWString(ch: Channel, wstr: seq<wchar>) returns (wstr': seq<wchar>, out: Outcome<NetStreamError>)
      modifies ch
      ensures ch.sent == old(ch.sent)
      ensures |ch.pending| <= |old(ch.pending)|
      ensures ch.pending == old(ch.pending)[|old(ch.pending)| - |ch.pending|..]
      ensures wstr <= wstr'
      ensures !sockset ==> out == Fail(NoSocket) && wstr' == wstr && ch.pending == old(ch.pending)
      ensures sockset && out.Pass? ==> DecodeWString(old(ch.pending)) == Some(wstr'[|wstr|..])
      ensures sockset && out.Fail? ==> out.error == ReadFailed && 0 !in wstr'[|wstr|..]
    {
      out := CheckSockSet();
      if out.Fail? {
        return wstr, out;
      }
      var wc: wchar := 97;  // L'a': anything but 0
      wstr' := wstr;
      ghost var units: seq<wchar> := [];
      while wc != 0
        invariant ch.sent == old(ch.sent)
        invariant wstr' == wstr + units
        invariant old(ch.pending) == EncodeUnits(units) + ch.pending
        invariant wc != 0 ==> 0 !in units
        invariant wc == 0 ==> EndsAtFirstZeroUnit(units)
        decreases |ch.pending|
      {
        var r := GetUnit(ch, EncodeUnits(units), old(ch.pending));
        if r.Err? {
          assert wstr'[|wstr|..] == units;
          return wstr', Fail(r.error);
        }
        wc := r.value;
        EncodeUnitsAppend(units, wc);
        ZeroUnitStep(units, wc);
        units := units + [wc];
        wstr' := wstr' + [wc];
      }
      assert wstr'[|wstr|..] == units;
      WStringConsumed(units, ch.pending, old(ch.pending));
    }
  }

  lemma AppendAssoc(a: seq<byte>, b: seq<byte>, c: seq<byte>)
    ensures a + b + c == a + (b + c)
  {
  }

  /** Whatever is left of the input after reading `s` is also what is left of `p + s`. */
  lemma SuffixOfAppend(p: seq<byte>, s: seq<byte>, t: seq<byte>)
    requires |t| <= |s| && t == s[|s| - |t|..]
    ensures |t| <= |p + s| && t == (p + s)[|p + s| - |t|..]
  {
    assert (p + s)[|p + s| - |t|..] == s[|s| - |t|..];
  }

  /** Reading a whole wide string consumes exactly its units' bytes. */
  lemma WStringConsumed(units: seq<wchar>, rest: seq<byte>, input: seq<byte>)
    requires input == EncodeUnits(units) + rest && EndsAtFirstZeroUnit(units)
    ensures DecodeWString(input) == Some(units)
    ensures |rest| <= |input| && rest == input[|input| - |rest|..]
  {
    DecodeWStringPrefix(units, rest);
    SuffixOfAppend(EncodeUnits(units), rest, rest);
  }

  /** Appending one more unit read: it ends the string exactly when it is the zero unit. */
  lemma ZeroUnitStep(units: seq<wchar>, wc: wchar)
    requires 0 !in units
    ensures wc == 0 ==> EndsAtFirstZeroUnit(units + [wc])
    ensures wc != 0 ==> 0 !in units + [wc]
  {
    assert (units + [wc])[..|units|] == units;
  }

  /** A failure while sending one chunk of a larger message leaves a proper prefix of the message sent. */
  lemma FailedWithin(s0: seq<byte>, done: seq<byte>, chunk: seq<byte>, whole: seq<byte>, after: seq<byte>)
    requires s0 + done <= after < s0 + done + chunk
    requires done + chunk <= whole
    ensures s0 <= after < s0 + whole
  {
    assert s0 + done + chunk == s0 + (done + chunk);
    assert s0 + (done + chunk) <= s0 + whole;
    assert (s0 + done)[..|s0|] == s0;
  }
}
