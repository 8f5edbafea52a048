/**
 * The value transforms inside NetStream.cpp: the error kinds, the wire image
 * of every type the stream sends, the dispatch of native integers by width,
 * and the terminator rules of the two string formats. The I/O around them is
 * in module NetStream.
 */
module NetStreamCodec {
  import opened Wrappers
  import opened ByteOrder

  // Host assumptions (Linux, LP64): sizeof of the native types.
  const SHORT_SIZE: nat := 2
  const INT_SIZE: nat := 4
  const LONG_SIZE: nat := 8
  const WCHAR_SIZE: nat := 4

  type u16 = x: int | 0 <= x < 0x1_0000
  type u32 = x: int | 0 <= x < 0x1_0000_0000
  type u64 = x: int | 0 <= x < 0x1_0000_0000_0000_0000
  type i16 = x: int | -0x8000 <= x < 0x8000
  type i32 = x: int | -0x8000_0000 <= x < 0x8000_0000
  type i64 = x: int | -0x8000_0000_0000_0000 <= x < 0x8000_0000_0000_0000
  /** wchar_t is a signed 32-bit type on this host. */
  type wchar = i32

  // ---------------------------------------------------------------------------
  // Errors (NetStream.h)

  /** The closed set of kinds a stream error can carry. */
  datatype ErrorType = ReadError | WriteError | CloseError | NoSocketError | CastError

  /**
   * netstream_error. The two-argument constructor records a kind; the
   * inherited message-only constructor (used for duplicate ownership) does not.
   */
  datatype NetStreamError =
    | Kinded(what: string, kind: ErrorType)
    | Unkinded(what: string)

  /** GetErrorType returns the kind the error was built with. */
  function GetErrorType(e: NetStreamError): (k: ErrorType)
    requires e.Kinded?  // a message-only error leaves its kind indeterminate
    ensures e == Kinded(e.what, k)
  {
    e.kind
  }

  const NoSocket := Kinded("No socket set.", NoSocketError)
  const WriteFailed := Kinded("write() failed on current socket", WriteError)
  const ReadFailed := Kinded("read() failed on current socket", ReadError)
  const CloseFailed := Kinded("close() failed on current socket", CloseError)
  const CastFailed := Kinded("Invalid size provided for casting", CastError)
  const AlreadyOwned := Unkinded("Failed to initialize: an instance of NetStream is on this socket")

  // ---------------------------------------------------------------------------
  // Fixed-width unsigned integers

  /** The two bytes operator<<(uint16_t) writes: the memory image of htons(us). */
  function EncodeU16(us: u16): (b: seq<byte>)
    ensures b == NetworkBytes(us, 2)
  {
    Pow256Values();
    HostToNetworkImage(us, 2);
    HostBytes(HostToNetwork(us, 2), 2)
  }

  /** The value operator>>(uint16_t&) stores: ntohs of the two bytes read. */
  function DecodeU16(b: seq<byte>): (us: u16)
    requires |b| == 2
    ensures us == FromNetworkBytes(b)
  {
    Pow256Values();
    NetworkToHostValue(b);
    HostToNetwork(FromHostBytes(b), 2)
  }

  lemma U16RoundTrip(us: u16)
    ensures DecodeU16(EncodeU16(us)) == us
  {
    Pow256Values();
    NetworkBytesRoundTrip(us, 2);
  }

  /** Every two-byte wire value is the encoding of exactly the value it decodes to. */
  lemma U16Onto(b: seq<byte>)
    requires |b| == 2
    ensures EncodeU16(DecodeU16(b)) == b
  {
    FromNetworkBytesRoundTrip(b);
  }

  /** The four bytes operator<<(uint32_t) writes: the memory image of htonl(ui). */
  function EncodeU32(ui: u32): (b: seq<byte>)
    ensures b == NetworkBytes(ui, 4)
  {
    Pow256Values();
    HostToNetworkImage(ui, 4);
    HostBytes(HostToNetwork(ui, 4), 4)
  }

  /** The value operator>>(uint32_t&) stores: ntohl of the four bytes read. */
  function DecodeU32(b: seq<byte>): (ui: u32)
    requires |b| == 4
    ensures ui == FromNetworkBytes(b)
  {
    Pow256Values();
    NetworkToHostValue(b);
    HostToNetwork(FromHostBytes(b), 4)
  }

  lemma U32RoundTrip(ui: u32)
    ensures DecodeU32(EncodeU32(ui)) == ui
  {
    Pow256Values();
    NetworkBytesRoundTrip(ui, 4);
  }

  lemma U32Onto(b: seq<byte>)
    requires |b| == 4
    ensures EncodeU32(DecodeU32(b)) == b
  {
    FromNetworkBytesRoundTrip(b);
  }

  /**
   * The eight bytes operator<<(uint64_t) writes: it overlays the value with a
   * union and sends low_high[1] and then low_high[0], each as a uint32_t.
   */
  function EncodeU64(ul: u64): (b: seq<byte>)
    ensures |b| == 8
  {
    Pow256Values();
    var w := UnionWords(ul);
    EncodeU32(w.1) + EncodeU32(w.0)
  }

  /**
   * The value operator>>(uint64_t&) stores: the first word read goes to
   * low_high[1], the second to low_high[0], and the union is read back whole.
   */
  function DecodeU64(b: seq<byte>): (ul: u64)
    requires |b| == 8
    ensures ul == FromNetworkBytes(b)
  {
    Pow256Values();
    var hi, lo := b[..4], b[4..];
    assert b == hi + lo;
    UnionJoinValue(DecodeU32(lo), DecodeU32(hi));
    ReverseAppend(hi, lo);
    FromHostBytesAppend(Reverse(lo), Reverse(hi));
    FromReversedHostBytes(b);
    FromReversedHostBytes(lo);
    FromReversedHostBytes(hi);
    UnionJoin(DecodeU32(lo), DecodeU32(hi))
  }

  /** On this host the union sends the high 32 bits first, then the low 32 bits. */
  lemma U64HighWordFirst(ul: u64)
    ensures EncodeU64(ul) == EncodeU32(ul / 0x1_0000_0000) + EncodeU32(ul % 0x1_0000_0000)
  {
    Pow256Values();
    UnionWordsValue(ul);
  }

  /** Reverse of a concatenation. */
  lemma ReverseAppend(a: seq<byte>, b: seq<byte>)
    ensures Reverse(a + b) == Reverse(b) + Reverse(a)
  {
    var l, r := Reverse(a + b), Reverse(b) + Reverse(a);
    assert |l| == |r|;
    forall i | 0 <= i < |l| ensures l[i] == r[i] {
      if i < |b| {
        assert l[i] == (a + b)[|a| + |b| - 1 - i];
      } else {
        assert l[i] == (a + b)[|a| + |b| - 1 - i];
      }
    }
  }

  /** The memory image of a 64-bit value is the images of its two union words. */
  lemma UnionImage(ul: u64)
    ensures Pow256(4) == 0x1_0000_0000
    ensures HostBytes(ul, 8) == HostBytes(UnionWords(ul).0, 4) + HostBytes(UnionWords(ul).1, 4)
  {
    Pow256Values();
    var m := HostBytes(ul, 8);
    FromHostBytesRoundTrip(m[..4]);
    FromHostBytesRoundTrip(m[4..]);
    assert m == m[..4] + m[4..];
  }

  /** Altogether the 64-bit encoding is the plain big-endian image of the value. */
  lemma U64IsBigEndian(ul: u64)
    ensures EncodeU64(ul) == NetworkBytes(ul, 8)
  {
    Pow256Values();
    var w := UnionWords(ul);
    UnionImage(ul);
    NetworkBytesAreReversedHostBytes(ul, 8);
    NetworkBytesAreReversedHostBytes(w.0, 4);
    NetworkBytesAreReversedHostBytes(w.1, 4);
    ReverseAppend(HostBytes(w.0, 4), HostBytes(w.1, 4));
  }

  lemma U64RoundTrip(ul: u64)
    ensures DecodeU64(EncodeU64(ul)) == ul
  {
    Pow256Values();
    var w := UnionWords(ul);
    var b := EncodeU64(ul);
    assert b[..4] == EncodeU32(w.1) && b[4..] == EncodeU32(w.0);
    U32RoundTrip(w.0);
    U32RoundTrip(w.1);
    UnionImage(ul);
    HostBytesRoundTrip(ul, 8);
  }

  lemma U64Onto(b: seq<byte>)
    requires |b| == 8
    ensures EncodeU64(DecodeU64(b)) == b
  {
    Pow256Values();
    var hi, lo := DecodeU32(b[..4]), DecodeU32(b[4..]);
    var ul := DecodeU64(b);
    var m := HostBytes(lo, 4) + HostBytes(hi, 4);
    FromHostBytesRoundTrip(m);
    assert HostBytes(ul, 8) == m;
    assert m[..4] == HostBytes(lo, 4) && m[4..] == HostBytes(hi, 4);
    HostBytesRoundTrip(lo, 4);
    HostBytesRoundTrip(hi, 4);
    assert UnionWords(ul) == (lo, hi);
    U32Onto(b[..4]);
    U32Onto(b[4..]);
    assert b == b[..4] + b[4..];
  }

  // ---------------------------------------------------------------------------
  // Native signed integers: reinterpretation and dispatch by width

  /** A value that fits the bits of a size-byte object, read as signed or as unsigned. */
  predicate FitsIn(v: int, size: nat) {
    -(Pow256(size) as int) <= v < Pow256(size)
  }

  /** The object's bits read as an unsigned integer of the same width (two's complement). */
  function Unsigned(v: int, size: nat): (u: nat)
    requires FitsIn(v, size)
    ensures u < Pow256(size)
    ensures (u - v == 0 || u - v == Pow256(size))
  {
    if v < 0 then v + Pow256(size) else v
  }

  /** Half the values of a size-byte object: the bound of its signed range. */
  function Half(size: nat): (h: nat)
    ensures 0 < size ==> Pow256(size) == 2 * h
  {
    if size == 0 then 0 else 128 * Pow256(size - 1)
  }

  predicate InSignedRange(v: int, size: nat) {
    -(Half(size) as int) <= v < Half(size)
  }

  /** The value a size-byte signed object holds when its bits spell the unsigned u. */
  function Signed(u: nat, size: nat): (v: int)
    requires 0 < size && u < Pow256(size)
    ensures InSignedRange(v, size) && FitsIn(v, size)
    ensures Unsigned(v, size) == u
  {
    if u < Half(size) then u else u - Pow256(size)
  }

  /** Two's-complement reinterpretation loses nothing for in-range values. */
  lemma SignedRoundTrip(v: int, size: nat)
    requires 0 < size && InSignedRange(v, size)
    ensures Signed(Unsigned(v, size), size) == v
  {
    assert Pow256(size) == 2 * Half(size);
  }

  predicate IsNativeWidth(size: nat) {
    size == 2 || size == 4 || size == 8
  }

  /**
   * What castBySizeOut writes for a size-byte object holding v: its bits,
   * through the uint16_t, uint32_t or uint64_t encoder; any other width is a
   * CastError.
   */
  function NativeEncoding(v: int, size: nat): (r: Result<seq<byte>, ErrorType>)
    requires FitsIn(v, size)
    ensures r.Ok? <==> IsNativeWidth(size)
    ensures r.Ok? ==> r.value == NetworkBytes(Unsigned(v, size), size)
    ensures r.Err? ==> r.error == CastError
  {
    Pow256Values();
    match size
    case 2 => Ok(EncodeU16(Unsigned(v, 2)))
    case 4 => Ok(EncodeU32(Unsigned(v, 4)))
    case 8 => U64IsBigEndian(Unsigned(v, 8)); Ok(EncodeU64(Unsigned(v, 8)))
    case _ => Err(CastError)
  }

  /**
   * The value a native object of |b| bytes holds after castBySizeIn reads b
   * into it through the matching unsigned decoder.
   */
  function NativeDecoding(b: seq<byte>): (v: int)
    requires IsNativeWidth(|b|)
    ensures InSignedRange(v, |b|)
  {
    Pow256Values();
    if |b| == 2 then Signed(DecodeU16(b), 2)
    else if |b| == 4 then Signed(DecodeU32(b), 4)
    else Signed(DecodeU64(b), 8)
  }

  /** A native value sent by castBySizeOut comes back unchanged through castBySizeIn. */
  lemma NativeRoundTrip(v: int, size: nat)
    requires IsNativeWidth(size) && InSignedRange(v, size)
    ensures FitsIn(v, size) && NativeEncoding(v, size).Ok?
    ensures |NativeEncoding(v, size).value| == size
    ensures NativeDecoding(NativeEncoding(v, size).value) == v
  {
    Pow256Values();
    var u := Unsigned(v, size);
    if size == 2 {
      U16RoundTrip(u);
    } else if size == 4 {
      U32RoundTrip(u);
    } else {
      U64RoundTrip(u);
    }
    SignedRoundTrip(v, size);
  }

  // ---------------------------------------------------------------------------
  // Characters and byte strings

  /** operator<<(string): the bytes of s and then one 0 byte (c_str with length()+1). */
  function EncodeString(s: seq<byte>): (b: seq<byte>)
    ensures |b| == |s| + 1 && b[..|s|] == s && b[|s|] == 0
  {
    s + [0]
  }

  /** A run of bytes that ends at its first 0 byte. */
  predicate EndsAtFirstNul(p: seq<byte>) {
    |p| > 0 && p[|p| - 1] == 0 && 0 !in p[..|p| - 1]
  }

  /**
   * What operator>>(string&) reads from the byte stream `wire`: every byte up
   * to AND INCLUDING the first 0; None when no 0 ever arrives.
   */
  function DecodeString(wire: seq<byte>): (r: Option<seq<byte>>)
    ensures r.Some? ==> r.value <= wire && EndsAtFirstNul(r.value)
    ensures r.None? <==> 0 !in wire
  {
    if wire == [] then None
    else if wire[0] == 0 then Some([0])
    else match DecodeString(wire[1..])
      case None => None
      case Some(t) =>
        assert ([wire[0]] + t)[1..] == t;
        Some([wire[0]] + t)
  }

  /** Whatever follows the first 0 is left unread. */
  lemma {:induction false} DecodeStringPrefix(p: seq<byte>, rest: seq<byte>)
    requires EndsAtFirstNul(p)
    ensures DecodeString(p + rest) == Some(p)
  {
    var wire := p + rest;
    assert wire[0] == p[0];
    if |p| == 1 {
      assert p == [0];
    } else {
      assert p[0] != 0 by { assert p[0] in p[..|p| - 1]; }
      assert wire[1..] == p[1..] + rest;
      assert p[1..][..|p| - 2] == p[..|p| - 1][1..];
      DecodeStringPrefix(p[1..], rest);
      assert p == [p[0]] + p[1..];
    }
  }

  /** decode(encode(s)) == s + [0] for a string without an embedded 0. */
  lemma StringRoundTrip(s: seq<byte>, rest: seq<byte>)
    requires 0 !in s
    ensures DecodeString(EncodeString(s) + rest) == Some(s + [0])
  {
    assert (s + [0])[..|s|] == s;
    DecodeStringPrefix(s + [0], rest);
  }

  /** std::string(c_str): the bytes of a C string before its first 0. */
  function CString(c: seq<byte>): (s: seq<byte>)
    requires 0 in c
    ensures 0 !in s && s + [0] <= c
  {
    if c[0] == 0 then [] else [c[0]] + CString(c[1..])
  }

  // ---------------------------------------------------------------------------
  // Wide strings: each wchar_t unit is promoted to int and sent through castBySizeOut

  /** The four bytes one wchar_t unit takes on the wire. */
  function EncodeUnit(wc: wchar): (b: seq<byte>)
    ensures NativeEncoding(wc, INT_SIZE) == Ok(b)
    ensures |b| == WCHAR_SIZE
  {
    Pow256Values();
    EncodeU32(Unsigned(wc, 4))
  }

  /** The unit castBySizeIn(&wc, sizeof(wchar_t)) stores from four bytes read. */
  function DecodeUnit(b: seq<byte>): (wc: wchar)
    requires |b| == WCHAR_SIZE
    ensures wc == NativeDecoding(b)
  {
    Pow256Values();
    Signed(DecodeU32(b), 4)
  }

  lemma UnitRoundTrip(wc: wchar)
    ensures DecodeUnit(EncodeUnit(wc)) == wc
  {
    NativeRoundTrip(wc, 4);
  }

  lemma UnitOnto(b: seq<byte>)
    requires |b| == WCHAR_SIZE
    ensures EncodeUnit(DecodeUnit(b)) == b
  {
    Pow256Values();
    var u := DecodeU32(b);
    assert Unsigned(Signed(u, 4), 4) == u;
    U32Onto(b);
  }

  /** The units of ws, four bytes each, in order. */
  function EncodeUnits(ws: seq<wchar>): (b: seq<byte>)
    ensures |b| == WCHAR_SIZE * |ws|
  {
    if ws == [] then [] else EncodeUnit(ws[0]) + EncodeUnits(ws[1..])
  }

  lemma {:induction false} EncodeUnitsAppend(ws: seq<wchar>, wc: wchar)
    ensures EncodeUnits(ws + [wc]) == EncodeUnits(ws) + EncodeUnit(wc)
  {
    if ws != [] {
      assert (ws + [wc])[1..] == ws[1..] + [wc];
      EncodeUnitsAppend(ws[1..], wc);
    } else {
      assert EncodeUnits([wc]) == EncodeUnit(wc) + EncodeUnits([]);
    }
  }

  /** Encoding the first i units produces a prefix of encoding them all. */
  lemma {:induction false} EncodeUnitsSplit(ws: seq<wchar>, i: nat)
    requires i <= |ws|
    ensures EncodeUnits(ws) == EncodeUnits(ws[..i]) + EncodeUnits(ws[i..])
  {
    if i > 0 {
      assert ws[1..][..i - 1] == ws[..i][1..] && ws[1..][i - 1..] == ws[i..];
      EncodeUnitsSplit(ws[1..], i - 1);
    } else {
      assert ws[..0] == [] && ws[0..] == ws;
    }
  }

  /** operator<<(wstring): every unit, then a zero unit. */
  function EncodeWString(ws: seq<wchar>): (b: seq<byte>)
    ensures |b| == WCHAR_SIZE * (|ws| + 1)
  {
    EncodeUnits(ws) + EncodeUnit(0)
  }

  /** Units that end at their first zero unit. */
  predicate EndsAtFirstZeroUnit(us: seq<wchar>) {
    |us| > 0 && us[|us| - 1] == 0 && 0 !in us[..|us| - 1]
  }

  /**
   * The units operator>>(wstring&) appends when reading `wire`: one unit per
   * four bytes, up to AND INCLUDING the first zero unit; None when the bytes
   * run out first.
   */
  function DecodeWString(wire: seq<byte>): (r: Option<seq<wchar>>)
    ensures r.Some? ==> EndsAtFirstZeroUnit(r.value)
    decreases |wire|
  {
    if |wire| < WCHAR_SIZE then None
    else
      var wc := DecodeUnit(wire[..4]);
      if wc == 0 then Some([0])
      else match DecodeWString(wire[4..])
        case None => None
        case Some(t) =>
          var us := [wc] + t;
          assert us[..|us| - 1] == [wc] + t[..|t| - 1];
          Some(us)
  }

  /** The units decoded are exactly what the bytes consumed from the front of wire encode. */
  lemma {:induction false} DecodeWStringConsumes(wire: seq<byte>)
    requires DecodeWString(wire).Some?
    ensures EncodeUnits(DecodeWString(wire).value) <= wire
    decreases |wire|
  {
    var head := wire[..4];
    UnitOnto(head);
    var us := DecodeWString(wire).value;
    if DecodeUnit(head) == 0 {
      assert EncodeUnits(us) == EncodeUnit(0) + EncodeUnits([]);
    } else {
      DecodeWStringConsumes(wire[4..]);
      assert us[1..] == DecodeWString(wire[4..]).value;
      assert EncodeUnits(us) == head + EncodeUnits(us[1..]);
      assert wire == head + wire[4..];
    }
  }

  /** One step of DecodeWString: the first four bytes give a unit, then it stops or goes on. */
  lemma DecodeWStringStep(wire: seq<byte>, wc: wchar)
    requires |wire| >= WCHAR_SIZE && DecodeUnit(wire[..4]) == wc
    ensures wc == 0 ==> DecodeWString(wire) == Some([0])
    ensures wc != 0 && DecodeWString(wire[4..]).Some? ==>
      DecodeWString(wire) == Some([wc] + DecodeWString(wire[4..]).value)
  {
  }

  lemma SplitFour(a: seq<byte>, t: seq<byte>)
    requires |a| == 4
    ensures (a + t)[..4] == a && (a + t)[4..] == t
  {
  }

  /** DecodeWString over one encoded unit followed by more bytes. */
  lemma DecodeWStringUnit(wc: wchar, tail: seq<byte>)
    ensures wc == 0 ==> DecodeWString(EncodeUnit(wc) + tail) == Some([0])
    ensures wc != 0 && DecodeWString(tail).Some? ==>
      DecodeWString(EncodeUnit(wc) + tail) == Some([wc] + DecodeWString(tail).value)
  {
    SplitFour(EncodeUnit(wc), tail);
    UnitRoundTrip(wc);
    DecodeWStringStep(EncodeUnit(wc) + tail, wc);
  }

  /** Whatever follows the first zero unit is left unread. */
  lemma {:induction false} DecodeWStringPrefix(us: seq<wchar>, rest: seq<byte>)
    requires EndsAtFirstZeroUnit(us)
    ensures DecodeWString(EncodeUnits(us) + rest) == Some(us)
  {
    var tail := EncodeUnits(us[1..]) + rest;
    assert EncodeUnits(us) + rest == EncodeUnit(us[0]) + tail;
    DecodeWStringUnit(us[0], tail);
    if |us| > 1 {
      EndsAtFirstZeroUnitTail(us);
      DecodeWStringPrefix(us[1..], rest);
      assert DecodeWString(EncodeUnit(us[0]) + tail) == Some([us[0]] + us[1..]);
      assert us == [us[0]] + us[1..];
    } else {
      assert us == [0];
    }
  }

  lemma EndsAtFirstZeroUnitTail(us: seq<wchar>)
    requires EndsAtFirstZeroUnit(us) && |us| > 1
    ensures us[0] != 0 && EndsAtFirstZeroUnit(us[1..])
  {
    assert us[0] in us[..|us| - 1];
    assert us[1..][..|us| - 2] == us[..|us| - 1][1..];
  }

  /** Decoding an encoded wide string yields its units and the zero unit. */
  lemma WStringRoundTrip(ws: seq<wchar>, rest: seq<byte>)
    requires 0 !in ws
    ensures DecodeWString(EncodeWString(ws) + rest) == Some(ws + [0])
  {
    EncodeUnitsAppend(ws, 0);
    assert (ws + [0])[..|ws|] == ws;
    DecodeWStringPrefix(ws + [0], rest);
  }

  /** Sending units one by one: the first i+1 units extend the first i, inside the whole string. */
  lemma EncodeUnitsStep(ws: seq<wchar>, i: nat)
    requires i < |ws|
    ensures EncodeUnits(ws[..i + 1]) == EncodeUnits(ws[..i]) + EncodeUnit(ws[i])
    ensures EncodeUnits(ws[..i]) + EncodeUnit(ws[i]) <= EncodeWString(ws)
  {
    assert ws[..i + 1] == ws[..i] + [ws[i]];
    EncodeUnitsAppend(ws[..i], ws[i]);
    EncodeUnitsSplit(ws, i + 1);
  }

  /** The units of a wide C string before its first zero unit. */
  function WCString(c: seq<wchar>): (ws: seq<wchar>)
    requires 0 in c
    ensures 0 !in ws && ws + [0] <= c
  {
    if c[0] == 0 then [] else [c[0]] + WCString(c[1..])
  }

  /**
   * Scanning a wide C string unit by unit: while the scanned units agree with
   * its text, the scan stops exactly at the text's end.
   */
  lemma WCStringScan(c: seq<wchar>, i: nat)
    requires 0 in c && i <= |WCString(c)| && c[..i] == WCString(c)[..i]
    ensures i < |c|
    ensures c[i] == 0 <==> i == |WCString(c)|
    ensures i < |WCString(c)| ==> c[i] == WCString(c)[i] && c[..i + 1] == WCString(c)[..i + 1]
  {
    var ws := WCString(c);
    assert c[|ws|] == 0;
    if i < |ws| {
      assert c[i] == ws[i] && ws[i] in ws;
      assert c[..i + 1] == c[..i] + [c[i]] && ws[..i + 1] == ws[..i] + [ws[i]];
    }
  }
}
