/**
 The Internet checksum of RFC 1071 as traceroute.c computes it, on machines of
 either byte order, and the word that steers it to a chosen value.
 */
module Checksum {
  import opened Bits

  const PACKET_SIZE: nat := 4096 + 128

  /** Two bytes of memory read as a 16-bit number. */
  function Word(big: bool, a: byte, b: byte): nat
  {
    if big then a as int * 256 + b as int else a as int + b as int * 256
  }

  /** The sum of the 16-bit words in the first n bytes, n even. */
  function Words(big: bool, s: seq<byte>, n: nat): nat
    requires n <= |s|
  {
    if n < 2 then 0 else Words(big, s, n - 2) + Word(big, s[n - 2], s[n - 1])
  }

  /** The sum of all words; an odd byte at the end counts as if a zero followed it. */
  function Sum(big: bool, s: seq<byte>): nat
  {
    if |s| % 2 == 0 then Words(big, s, |s|) else Words(big, s, |s| - 1) + Word(big, s[|s| - 1], 0)
  }

  /** The two folds, and the low 16 bits. */
  function Fold(s: nat): (r: nat)
    ensures r < 0x10000
  {
    var t := s / 0x10000 + s % 0x10000;
    (t + t / 0x10000) % 0x10000
  }

  function Cksum(big: bool, s: seq<byte>): (r: nat)
    ensures r < 0x10000
  {
    0xffff - Fold(Sum(big, s))
  }

  function Swap(x: nat): (r: nat)
    requires x < 0x10000
    ensures r < 0x10000
  {
    x % 256 * 256 + x / 256
  }

  /** Between host and network byte order. */
  function Ntohs(big: bool, x: nat): (r: nat)
    requires x < 0x10000
    ensures r < 0x10000
  {
    if big then x else Swap(x)
  }

  // ----- arithmetic modulo 65535 -----

  /** Two folds are enough for a 32-bit sum, and keep it modulo 65535. */
  lemma FoldMod(s: nat)
    requires s < 0x1_0000_0000
    ensures Fold(s) % 0xffff == s % 0xffff && (Fold(s) == 0 <==> s == 0)
  {
    var h, l := s / 0x10000, s % 0x10000;
    assert s == h * 0xffff + (h + l);
    Multiples(h, h + l);
    var t := h + l;
    if t < 0x10000 {
      assert Fold(s) == t;
    } else {
      assert t / 0x10000 == 1 && t < 0x1fffe + 1;
      assert Fold(s) == t - 0xffff;
      Multiples(1, t - 0xffff);
    }
  }

  lemma Multiples(k: nat, r: nat)
    ensures (k * 0xffff + r) % 0xffff == r % 0xffff
  {}

  lemma SwapMod(x: nat)
    requires x < 0x10000
    ensures Swap(x) % 0xffff == 256 * x % 0xffff && (Swap(x) == 0 <==> x == 0)
  {
    var h, l := x / 256, x % 256;
    assert 256 * x == h * 0xffff + Swap(x);
    Multiples(h, Swap(x));
  }

  lemma SwapComplement(x: nat)
    requires x < 0x10000
    ensures Swap(0xffff - x) == 0xffff - Swap(x)
  {
    var h, l := x / 256, x % 256;
    assert 0xffff - x == (255 - h) * 256 + (255 - l);
    assert (0xffff - x) / 256 == 255 - h && (0xffff - x) % 256 == 255 - l;
  }

  /** The words of the other byte order: each is 256 times the first, up to a multiple of 65535. */
  function Firsts(s: seq<byte>, n: nat): nat
    requires n <= |s|
  {
    if n < 2 then 0 else Firsts(s, n - 2) + s[n - 2]
  }

  lemma {:induction false} WordsSwap(s: seq<byte>, n: nat)
    requires n <= |s|
    ensures 256 * Words(true, s, n) == Words(false, s, n) + 0xffff * Firsts(s, n)
    ensures Words(true, s, n) == 0 <==> Words(false, s, n) == 0
  {
    if n >= 2 {
      WordsSwap(s, n - 2);
    }
  }

  lemma SumSwap(s: seq<byte>)
    ensures Sum(false, s) % 0xffff == 256 * Sum(true, s) % 0xffff && (Sum(true, s) == 0 <==> Sum(false, s) == 0)
  {
    if |s| % 2 == 0 {
      WordsSwap(s, |s|);
      Multiples(Firsts(s, |s|), Sum(false, s));
    } else {
      WordsSwap(s, |s| - 1);
      Multiples(Firsts(s, |s| - 1) + s[|s| - 1], Sum(false, s));
    }
  }

  lemma Unique(x: nat, y: nat)
    requires x % 0xffff == y % 0xffff && x <= 0xffff && y <= 0xffff && (x == 0 <==> y == 0)
    ensures x == y
  {}

  lemma MulMod(x: nat, y: nat)
    requires x % 0xffff == y % 0xffff
    ensures 256 * x % 0xffff == 256 * y % 0xffff
  {
    var q, p := x / 0xffff, y / 0xffff;
    var r := x % 0xffff;
    assert x == q * 0xffff + r && y == p * 0xffff + r;
    Multiples(256 * q, 256 * r);
    Multiples(256 * p, 256 * r);
  }

  lemma TwiceSwapped(n: nat)
    ensures 256 * (256 * n) % 0xffff == n % 0xffff
  {
    Multiples(n, n);
  }

  /** Byte order does not matter: the checksum in network order is the same on every machine. */
  lemma NetworkOrder(big: bool, s: seq<byte>)
    requires Sum(true, s) < 0x1_0000_0000 && Sum(false, s) < 0x1_0000_0000
    ensures Ntohs(big, Cksum(big, s)) == 0xffff - Fold(Sum(true, s))
  {
    hide Fold, Swap, Sum;
    if !big {
      var n, h := Sum(true, s), Sum(false, s);
      FoldMod(n);
      FoldMod(h);
      SumSwap(s);
      SwapComplement(Fold(h));
      SwapMod(Fold(h));
      MulMod(Fold(h), 256 * n);
      TwiceSwapped(n);
      Unique(Swap(Fold(h)), Fold(n));
    }
  }

  // ----- steering -----

  /** The word to add so that the checksum becomes val, given the checksum without it. */
  function Fudge(sum: nat, val: nat): (r: nat)
    requires val <= 0xffff
    ensures r < 0x10000
  {
    var usum := sum + (0xffff - val);
    (usum + usum / 0x10000) % 0x10000
  }

  lemma FudgeMod(sum: nat, val: nat)
    requires sum <= 0xffff && val <= 0xffff
    ensures Fudge(sum, val) % 0xffff == (sum + (0xffff - val)) % 0xffff
            && (Fudge(sum, val) == 0 <==> sum + (0xffff - val) == 0)
  {
    var u := sum + (0xffff - val);
    if u >= 0x10000 {
      assert u / 0x10000 == 1;
      Multiples(1, u - 0xffff);
    }
  }

  /** What a packet steered to val gets: 0xffff cannot be had, and becomes zero. */
  function Reached(val: nat): nat
  {
    if val == 0xffff then 0 else val
  }

  lemma Steered(n: nat, val: nat)
    requires n < 0x8000_0000 && val <= 0xffff
    ensures 0xffff - Fold(n + Fudge(0xffff - Fold(n), val)) == Reached(val)
  {
    hide Fold, Fudge;
    var c := 0xffff - Fold(n);
    var f := Fudge(c, val);
    FoldMod(n);
    FudgeMod(c, val);
    FoldMod(n + f);
    Cancel(n, Fold(n), f, val);
    Unique(Fold(n + f), 0xffff - Reached(val));
  }

  lemma Cancel(n: nat, folded: nat, f: nat, val: nat)
    requires folded <= 0xffff && folded % 0xffff == n % 0xffff && val <= 0xffff
    requires f % 0xffff == (0xffff - folded + (0xffff - val)) % 0xffff
    ensures (n + f) % 0xffff == (0xffff - val) % 0xffff
  {
    AddMod(n, f);
    AddMod(folded, 0xffff - folded + (0xffff - val));
    Multiples(1, 0xffff - val);
  }

  lemma AddMod(a: nat, b: nat)
    ensures (a + b) % 0xffff == (a % 0xffff + b % 0xffff) % 0xffff
  {}

  // ----- sums of parts -----

  lemma {:induction false} WordsPrefix(big: bool, s: seq<byte>, t: seq<byte>, n: nat)
    requires n <= |s| && n <= |t| && s[..n] == t[..n]
    ensures Words(big, s, n) == Words(big, t, n)
  {
    if n >= 2 {
      assert s[n - 2] == s[..n][n - 2] && s[n - 1] == s[..n][n - 1];
      assert s[..n - 2] == s[..n][..n - 2] && t[..n - 2] == t[..n][..n - 2];
      WordsPrefix(big, s, t, n - 2);
    }
  }

  /** An odd string has the sum of the string with a zero byte appended. */
  lemma OddSum(big: bool, s: seq<byte>)
    requires |s| % 2 == 1
    ensures Sum(big, s) == Sum(big, s + [0])
  {
    var n := |s| - 1;
    assert s[..n] == (s + [0])[..n];
    WordsPrefix(big, s, s + [0], n);
  }

  lemma {:induction false} WordsConcat(big: bool, a: seq<byte>, b: seq<byte>, n: nat)
    requires |a| % 2 == 0 && n % 2 == 0 && n <= |b|
    ensures Words(big, a + b, |a| + n) == Words(big, a, |a|) + Words(big, b, n)
  {
    if n >= 2 {
      WordsConcat(big, a, b, n - 2);
    } else {
      assert (a + b)[..|a|] == a[..|a|];
      WordsPrefix(big, a + b, a, |a|);
    }
  }

  /** Summing a header and the data separately is the same as summing both together. */
  lemma SumConcat(big: bool, a: seq<byte>, b: seq<byte>)
    requires |a| % 2 == 0
    ensures Sum(big, a + b) == Words(big, a, |a|) + Sum(big, b)
  {
    hide Words;
    WordsConcat(big, a, b, if |b| % 2 == 0 then |b| else |b| - 1);
  }

  lemma {:induction false} WordsBound(big: bool, s: seq<byte>, n: nat)
    requires n <= |s|
    ensures Words(big, s, n) <= 0x8000 * n
  {
    if n >= 2 {
      WordsBound(big, s, n - 2);
    }
  }

  lemma SumBound(big: bool, s: seq<byte>)
    requires |s| < 0x8000
    ensures Sum(big, s) < 0x8000_0000
  {
    WordsBound(big, s, if |s| % 2 == 0 then |s| else |s| - 1);
  }

  // ----- the code -----

  /** The loop over the words of a header. */
  method AddHeader(big: bool, head: seq<byte>, sum0: nat) returns (sum: nat)
    requires |head| % 2 == 0
    ensures sum == sum0 + Words(big, head, |head|)
  {
    sum := sum0;
    var at, left := 0, |head|;
    while left > 1
      invariant 0 <= at <= |head| && at + left == |head| && at % 2 == 0 && sum == sum0 + Words(big, head, at)
    {
      sum := sum + Word(big, head[at], head[at + 1]);
      at, left := at + 2, left - 2;
    }
  }

  /** The loop over the data and the odd byte. */
  method AddData(big: bool, buf: array<byte>, sz: nat, sum0: nat) returns (sum: nat)
    requires sz <= buf.Length
    ensures sum == sum0 + Sum(big, buf[..sz])
  {
    hide Word;
    sum := sum0;
    ghost var s := buf[..sz];
    var at, left := 0, sz;
    while left > 1
      invariant 0 <= at <= sz && at + left == sz && at % 2 == 0 && sum == sum0 + Words(big, s, at)
    {
      assert s[at] == buf[at] && s[at + 1] == buf[at + 1];
      sum := sum + Word(big, buf[at], buf[at + 1]);
      at, left := at + 2, left - 2;
    }
    if left == 1 {
      assert s[at] == buf[at];
      sum := sum + Word(big, buf[at], 0);
    }
  }

  /** The data, the folds and the complement. */
  method Finish(big: bool, buf: array<byte>, sz: nat, sum0: nat) returns (ans: nat)
    requires sz <= buf.Length
    ensures ans == 0xffff - Fold(sum0 + Sum(big, buf[..sz]))
  {
    hide Sum;
    var sum := AddData(big, buf, sz, sum0);
    sum := sum / 0x10000 + sum % 0x10000;
    sum := sum + sum / 0x10000;
    ans := 0xffff - sum % 0x10000;
  }

  /** in_cksum */
  method InCksum(big: bool, buf: array<byte>, sz: nat) returns (ans: nat)
    requires sz <= buf.Length
    ensures ans == Cksum(big, buf[..sz])
  {
    ans := Finish(big, buf, sz, 0);
  }

  /** in_cksum_udp; the UDP header may be absent. */
  method InCksumUdp(big: bool, ph: seq<byte>, udp: seq<byte>, buf: array<byte>, sz: nat) returns (ans: nat)
    requires sz <= buf.Length && |ph| % 2 == 0 && |udp| % 2 == 0
    ensures ans == Cksum(big, ph + udp + buf[..sz])
  {
    hide Words, Fold;
    var sum := AddHeader(big, ph, 0);
    sum := AddHeader(big, udp, sum);
    ans := Finish(big, buf, sz, sum);
    WordsConcat(big, ph, udp, |udp|);
    SumConcat(big, ph + udp, buf[..sz]);
  }

  /** in_cksum_icmp6 */
  method InCksumIcmp6(big: bool, ph: seq<byte>, buf: array<byte>, sz: nat) returns (ans: nat)
    requires sz <= buf.Length && |ph| % 2 == 0
    ensures ans == Cksum(big, ph + buf[..sz])
  {
    hide Words, Fold;
    var sum := AddHeader(big, ph, 0);
    ans := Finish(big, buf, sz, sum);
    SumConcat(big, ph, buf[..sz]);
  }

  /** Writing a word at an even place where there was none adds it to the sum. */
  lemma {:induction false} WordsPut(s: seq<byte>, k: nat, f: nat, n: nat)
    requires k % 2 == 0 && k + 2 <= |s| && s[k] == 0 && s[k + 1] == 0 && f < 0x10000 && n <= |s| && n % 2 == 0
    ensures Words(true, Put(s, k, f), n) == Words(true, s, n) + (if k < n then f else 0)
  {
    if n >= 2 {
      WordsPut(s, k, f, n - 2);
    }
  }

  function Put(s: seq<byte>, k: nat, f: nat): (r: seq<byte>)
    requires k + 2 <= |s| && f < 0x10000
    ensures |r| == |s|
  {
    s[k := f / 256][k + 1 := f % 256]
  }

  lemma SumPut(head: seq<byte>, s: seq<byte>, k: nat, f: nat)
    requires |head| % 2 == 0 && k % 2 == 0 && k + 2 <= |s| && s[k] == 0 && s[k + 1] == 0 && f < 0x10000
    ensures Sum(true, head + Put(s, k, f)) == Sum(true, head + s) + f
  {
    hide Words;
    SumConcat(true, head, s);
    SumConcat(true, head, Put(s, k, f));
    WordsPut(s, k, f, if |s| % 2 == 0 then |s| else |s| - 1);
  }

  /** The steering of a packet, in network order: what the checksum is with the word in its place. */
  lemma PacketSteered(big: bool, head: seq<byte>, s: seq<byte>, k: nat, val: nat)
    requires |head| % 2 == 0 && |head| + |s| < 0x8000 && k % 2 == 0 && k + 2 <= |s| && s[k] == 0 && s[k + 1] == 0
             && val <= 0xffff
    ensures var f := Fudge(Ntohs(big, Cksum(big, head + s)), val);
            Ntohs(big, Cksum(big, head + Put(s, k, f))) == Reached(val)
  {
    hide Sum, Fold, Fudge, Cksum, Ntohs, Put;
    SumBound(true, head + s);
    SumBound(false, head + s);
    NetworkOrder(big, head + s);
    var n := Sum(true, head + s);
    var f := Fudge(0xffff - Fold(n), val);
    SumPut(head, s, k, f);
    SumBound(true, head + Put(s, k, f));
    SumBound(false, head + Put(s, k, f));
    NetworkOrder(big, head + Put(s, k, f));
    Steered(n, val);
  }

  /** Write the steering word into the packet. */
  method WriteFudge(big: bool, packet: array<byte>, len: nat, at: nat, cksum: nat, val: nat)
    requires at + 2 <= len <= packet.Length && cksum < 0x10000 && val <= 0xffff
    modifies packet
    ensures packet[..len] == Put(old(packet[..len]), at, Fudge(Ntohs(big, cksum), val))
  {
    var sum := Ntohs(big, cksum);
    var usum := sum + (0xffff - val);
    sum := usum + usum / 0x10000;
    packet[at] := sum / 256 % 256;
    packet[at + 1] := sum % 256;
    LowBytes(sum);
  }

  lemma LowBytes(sum: nat)
    ensures sum / 256 % 256 == sum % 0x10000 / 256 && sum % 256 == sum % 0x10000 % 256
  {}

  /** The UDP probe: the checksum that will be sent is val, unless val is 0xffff. */
  method SteerUdp(big: bool, ph: seq<byte>, udp: seq<byte>, packet: array<byte>, len: nat, val: nat) returns (sum: nat)
    requires |ph| == 12 && |udp| == 8 && 2 <= len <= packet.Length && len <= PACKET_SIZE && val <= 0xffff
    requires packet[0] == 0 && packet[1] == 0
    modifies packet
    ensures packet[2..len] == old(packet[2..len]) && sum == Cksum(big, ph + udp + packet[..len])
    ensures Ntohs(big, sum) == Reached(val)
  {
    hide Sum, Fold, Fudge, Cksum, Ntohs;
    ghost var s := packet[..len];
    sum := InCksumUdp(big, ph, udp, packet, len);
    PacketSteered(big, ph + udp, s, 0, val);
    WriteFudge(big, packet, len, 0, sum, val);
    sum := InCksumUdp(big, ph, udp, packet, len);
    assert packet[2..len] == packet[..len][2..] && s[2..] == old(packet[2..len]);
  }

  /** The ICMPv6 probe: the kernel will compute the checksum val = paris + 1. */
  method SteerIcmp6(big: bool, ph: seq<byte>, packet: array<byte>, len: nat, paris: nat) returns (sum: nat)
    requires |ph| == 40 && 10 <= len <= packet.Length && len <= PACKET_SIZE && paris + 1 <= 0xffff
    requires packet[8] == 0 && packet[9] == 0
    modifies packet
    ensures sum == Cksum(big, ph + packet[..len])
    ensures Ntohs(big, sum) == Reached(paris + 1)
  {
    hide Sum, Fold, Fudge, Cksum, Ntohs, Put;
    ghost var s := packet[..len];
    sum := InCksumIcmp6(big, ph, packet, len);
    PacketSteered(big, ph, s, 8, paris + 1);
    WriteFudge(big, packet, len, 8, sum, paris + 1);
    sum := InCksumIcmp6(big, ph, packet, len);
  }

  /**
   The ICMP probe: the checksum field becomes paris, unless that is 0xffff, and
   the packet passes the receiver's check in any case.
   */
  method SteerIcmp(big: bool, packet: array<byte>, len: nat, paris: nat)
    requires 10 <= len <= packet.Length && len <= PACKET_SIZE && paris <= 0xffff
    requires packet[2] == 0 && packet[3] == 0 && packet[8] == 0 && packet[9] == 0
    modifies packet
    ensures Word(true, packet[2], packet[3]) == Reached(paris)
    ensures Fold(Sum(true, packet[..len])) == 0xffff
  {
    hide Sum, Fold, Fudge, Cksum, Ntohs;
    ghost var s := packet[..len];
    var sum := InCksum(big, packet, len);
    assert [] + s == s;
    PacketSteered(big, [], s, 8, paris);
    WriteFudge(big, packet, len, 8, sum, paris);
    ghost var t := packet[..len];
    assert [] + t == t;
    sum := InCksum(big, packet, len);
    Stored(big, t, sum);
    var net := Ntohs(big, sum);
    packet[2], packet[3] := net / 256, net % 256;
    assert packet[..len] == Put(t, 2, net);
  }

  /** A packet with its checksum in place adds up to all ones. */
  lemma Stored(big: bool, t: seq<byte>, sum: nat)
    requires 4 <= |t| < 0x8000 && t[2] == 0 && t[3] == 0 && sum == Cksum(big, t)
    ensures Fold(Sum(true, Put(t, 2, Ntohs(big, sum)))) == 0xffff
  {
    hide Sum, Fold, Cksum, Ntohs, Put;
    SumBound(true, t);
    SumBound(false, t);
    NetworkOrder(big, t);
    var n := Sum(true, t);
    var c := 0xffff - Fold(n);
    SumPut([], t, 2, c);
    assert [] + t == t && [] + Put(t, 2, c) == Put(t, 2, c);
    FoldMod(n);
    FoldMod(n + c);
    Cancel(n, Fold(n), c, 0xffff);
    Unique(Fold(n + c), 0xffff);
  }

  /** A packet of four zero bytes steered to 0xffff: the fudge is all ones and the checksum zero. */
  lemma NotSteered(big: bool)
    ensures var f := Fudge(Ntohs(big, Cksum(big, [0, 0, 0, 0])), 0xffff);
            f == 0xffff && Put([0, 0, 0, 0], 0, f) == [255, 255, 0, 0] && Ntohs(big, Cksum(big, [255, 255, 0, 0])) == 0
  {
    var s: seq<byte> := [0, 0, 0, 0];
    NoWords(big, s);
    assert [] + s == s && [] + Put(s, 0, 0xffff) == Put(s, 0, 0xffff);
    PacketSteered(big, [], s, 0, 0xffff);
  }

  lemma NoWords(big: bool, s: seq<byte>)
    requires |s| == 4 && s[0] == s[1] == s[2] == s[3] == 0
    ensures Ntohs(big, Cksum(big, s)) == 0xffff
  {
    assert Words(big, s, 2) == 0;
    assert Words(big, s, 4) == 0;
  }
}
