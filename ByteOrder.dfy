/**
 * Byte order on the host the stream code is built for (Linux, little-endian).
 *
 * The stream never serialises integers by arithmetic: it converts a value with
 * htons/htonl and then hands the MEMORY of the converted value to write(), and
 * it splits a 64-bit value into two 32-bit words by overlaying them in a union.
 * Both tricks depend on how the host lays integers out in memory, so this
 * module models that layout (little-endian) and derives from it what ends up
 * on the wire: big-endian bytes, and the high word of a 64-bit value first.
 */
module ByteOrder {

  type byte = b: int | 0 <= b < 256

  /** Number of distinct values an n-byte unsigned integer can hold. */
  function Pow256(n: nat): (p: nat)
    ensures p >= 1
  {
    if n == 0 then 1 else 256 * Pow256(n - 1)
  }

  lemma Pow256Values()
    ensures Pow256(2) == 0x1_0000
    ensures Pow256(4) == 0x1_0000_0000
    ensures Pow256(8) == 0x1_0000_0000_0000_0000
  {
  }

  /** Reversal of a byte sequence, stated element by element. */
  function Reverse(s: seq<byte>): (r: seq<byte>)
    ensures |r| == |s|
    ensures forall i :: 0 <= i < |s| ==> r[i] == s[|s| - 1 - i]
  {
    if s == [] then [] else Reverse(s[1..]) + [s[0]]
  }

  // ---------------------------------------------------------------------------
  // Host memory layout: least significant byte at the lowest address.

  /** The n bytes an unsigned value x occupies in host memory, lowest address first. */
  function HostBytes(x: nat, n: nat): (s: seq<byte>)
    requires x < Pow256(n)
    ensures |s| == n
  {
    if n == 0 then [] else [x % 256] + HostBytes(x / 256, n - 1)
  }

  /** The unsigned value whose host memory image is s. */
  function FromHostBytes(s: seq<byte>): (x: nat)
    ensures x < Pow256(|s|)
  {
    if s == [] then 0 else s[0] + 256 * FromHostBytes(s[1..])
  }

  lemma {:induction false} HostBytesRoundTrip(x: nat, n: nat)
    requires x < Pow256(n)
    ensures FromHostBytes(HostBytes(x, n)) == x
  {
    if n > 0 {
      HostBytesRoundTrip(x / 256, n - 1);
      assert HostBytes(x, n)[1..] == HostBytes(x / 256, n - 1);
    }
  }

  lemma {:induction false} FromHostBytesRoundTrip(s: seq<byte>)
    ensures HostBytes(FromHostBytes(s), |s|) == s
  {
    if s != [] {
      FromHostBytesRoundTrip(s[1..]);
      var y := FromHostBytes(s[1..]);
      assert FromHostBytes(s) == s[0] + 256 * y;
      assert FromHostBytes(s) % 256 == s[0];
      assert FromHostBytes(s) / 256 == y;
    }
  }

  /** Concatenated memory images: the second part sits |s| bytes higher. */
  lemma {:induction false} FromHostBytesAppend(s: seq<byte>, t: seq<byte>)
    ensures FromHostBytes(s + t) == FromHostBytes(s) + Pow256(|s|) * FromHostBytes(t)
  {
    if s == [] {
      assert s + t == t;
    } else {
      var st := s + t;
      assert st[0] == s[0] && st[1..] == s[1..] + t;
      FromHostBytesAppend(s[1..], t);
      var a, b, p := FromHostBytes(s[1..]), FromHostBytes(t), Pow256(|s| - 1);
      var c := FromHostBytes(s[1..] + t);
      assert c == a + p * b;
      assert FromHostBytes(st) == s[0] + 256 * c;
      assert FromHostBytes(s) == s[0] + 256 * a;
      assert Pow256(|s|) == 256 * p;
      ScaleSum(a, p, b);
      var q := Pow256(|s|);
      assert q * b == (256 * p) * b;
    }
  }

  lemma ScaleSum(a: nat, p: nat, b: nat)
    ensures 256 * (a + p * b) == 256 * a + (256 * p) * b
  {
  }

  // ---------------------------------------------------------------------------
  // Network byte order: most significant byte first.

  /** The n bytes of x in network byte order (big-endian). */
  function NetworkBytes(x: nat, n: nat): (s: seq<byte>)
    requires x < Pow256(n)
    ensures |s| == n
  {
    if n == 0 then [] else NetworkBytes(x / 256, n - 1) + [x % 256]
  }

  /** The unsigned value whose big-endian representation is s. */
  function FromNetworkBytes(s: seq<byte>): (x: nat)
    ensures x < Pow256(|s|)
  {
    if s == [] then 0 else FromNetworkBytes(s[..|s| - 1]) * 256 + s[|s| - 1]
  }

  lemma {:induction false} NetworkBytesRoundTrip(x: nat, n: nat)
    requires x < Pow256(n)
    ensures FromNetworkBytes(NetworkBytes(x, n)) == x
  {
    if n > 0 {
      NetworkBytesRoundTrip(x / 256, n - 1);
      var s := NetworkBytes(x, n);
      assert s[..n - 1] == NetworkBytes(x / 256, n - 1);
    }
  }

  lemma {:induction false} FromNetworkBytesRoundTrip(s: seq<byte>)
    ensures NetworkBytes(FromNetworkBytes(s), |s|) == s
  {
    if s != [] {
      var init := s[..|s| - 1];
      FromNetworkBytesRoundTrip(init);
      var y := FromNetworkBytes(init);
      assert FromNetworkBytes(s) % 256 == s[|s| - 1];
      assert FromNetworkBytes(s) / 256 == y;
      assert s == init + [s[|s| - 1]];
    }
  }

  /** Big-endian bytes are the host (little-endian) bytes read backwards. */
  lemma {:induction false} NetworkBytesAreReversedHostBytes(x: nat, n: nat)
    requires x < Pow256(n)
    ensures NetworkBytes(x, n) == Reverse(HostBytes(x, n))
  {
    if n > 0 {
      NetworkBytesAreReversedHostBytes(x / 256, n - 1);
      var h := HostBytes(x, n);
      assert h[1..] == HostBytes(x / 256, n - 1);
    }
  }

  /** Reading a big-endian sequence backwards as host memory gives its value. */
  lemma {:induction false} FromReversedHostBytes(s: seq<byte>)
    ensures FromHostBytes(Reverse(s)) == FromNetworkBytes(s)
  {
    if s != [] {
      var init := s[..|s| - 1];
      FromReversedHostBytes(init);
      var r := Reverse(s);
      assert r[1..] == Reverse(init);
    }
  }

  // ---------------------------------------------------------------------------
  // htons / htonl / ntohs / ntohl on this host.

  /**
   * hton for an n-byte value on a little-endian host: the value whose memory
   * image is the byte-reversed image of x. ntoh is the same function here.
   */
  function HostToNetwork(x: nat, n: nat): (y: nat)
    requires x < Pow256(n)
    ensures y < Pow256(n)
  {
    FromHostBytes(Reverse(HostBytes(x, n)))
  }

  /** Writing the memory of hton(x) puts x on the wire in network byte order. */
  lemma HostToNetworkImage(x: nat, n: nat)
    requires x < Pow256(n)
    ensures HostBytes(HostToNetwork(x, n), n) == NetworkBytes(x, n)
  {
    FromHostBytesRoundTrip(Reverse(HostBytes(x, n)));
    NetworkBytesAreReversedHostBytes(x, n);
  }

  /** ntoh applied to bytes received into memory yields their big-endian value. */
  lemma NetworkToHostValue(b: seq<byte>)
    ensures HostToNetwork(FromHostBytes(b), |b|) == FromNetworkBytes(b)
  {
    FromHostBytesRoundTrip(b);
    FromReversedHostBytes(b);
  }

  // ---------------------------------------------------------------------------
  // union { uint32_t low_high[2]; uint64_t ulong_int; }

  /**
   * The pair (low_high[0], low_high[1]) a union overlays on the 64-bit value
   * ul: word 0 holds the first four bytes of ul's memory, word 1 the last four.
   */
  function UnionWords(ul: nat): (w: (nat, nat))
    requires ul < Pow256(8)
    ensures w.0 < Pow256(4) && w.1 < Pow256(4)
  {
    var m := HostBytes(ul, 8);
    (FromHostBytes(m[..4]), FromHostBytes(m[4..]))
  }

  /** On a little-endian host word 0 is the low half and word 1 the high half. */
  lemma UnionWordsValue(ul: nat)
    requires ul < Pow256(8)
    ensures UnionWords(ul) == (ul % Pow256(4), ul / Pow256(4))
  {
    var m := HostBytes(ul, 8);
    assert m == m[..4] + m[4..];
    HostBytesRoundTrip(ul, 8);
    FromHostBytesAppend(m[..4], m[4..]);
    Pow256Values();
    var w := UnionWords(ul);
    DivModUnique(ul, w.0, w.1);
  }

  lemma DivModUnique(x: nat, r: nat, q: nat)
    requires x == r + 0x1_0000_0000 * q && r < 0x1_0000_0000
    ensures x % 0x1_0000_0000 == r && x / 0x1_0000_0000 == q
  {
  }

  /** The 64-bit value a union holds after its words are set to w0 and w1. */
  function UnionJoin(w0: nat, w1: nat): (ul: nat)
    requires w0 < Pow256(4) && w1 < Pow256(4)
    ensures ul < Pow256(8)
  {
    FromHostBytes(HostBytes(w0, 4) + HostBytes(w1, 4))
  }

  lemma UnionJoinValue(w0: nat, w1: nat)
    requires w0 < Pow256(4) && w1 < Pow256(4)
    ensures UnionJoin(w0, w1) == w0 + Pow256(4) * w1
  {
    FromHostBytesAppend(HostBytes(w0, 4), HostBytes(w1, 4));
    HostBytesRoundTrip(w0, 4);
    HostBytesRoundTrip(w1, 4);
  }
}
