/**
 The WebSocket framing of WebSocketClient.cpp (sections 5.2 and 5.3 of RFC 6455): frames as values, and the client
 that masks its transmit buffer in place and unmasks what it reads.
 */
module WebSocket {
  import opened Bytes
  import opened Bits
  import opened Multiples

  const TYPE_CONTINUATION: byte := 0x0
  const TYPE_CONNECTION_CLOSE: byte := 0x8
  const TYPE_PING: byte := 0x9
  const TYPE_PONG: byte := 0xA

  function KeyAt(key: seq<byte>, i: nat): byte
    requires |key| == 4
  {
    key[i % 4]
  }

  /** The payload, each byte combined with the key byte at its index modulo four; `start` is the first index. */
  function Masked(payload: seq<byte>, key: seq<byte>, start: nat): (r: seq<byte>)
    requires |key| == 4
    ensures |r| == |payload|
    ensures forall i :: 0 <= i < |r| ==> r[i] == Xor(payload[i], KeyAt(key, start + i))
  {
    seq<byte>(|payload|, i requires 0 <= i < |payload| => Xor(payload[i], KeyAt(key, start + i)))
  }

  /** The k low bytes of n, most significant first. */
  function BigEndian(n: nat, k: nat): (r: seq<byte>)
    ensures |r| == k
  {
    if k == 0 then [] else BigEndian(n / 256, k - 1) + [n % 256]
  }

  function FromBigEndian(bs: seq<byte>): nat {
    if bs == [] then 0 else FromBigEndian(bs[..|bs| - 1]) * 256 + bs[|bs| - 1]
  }

  function Pow256(k: nat): (p: nat)
    ensures p >= 1
  {
    if k == 0 then 1 else 256 * Pow256(k - 1)
  }

  /** The length field of a masked frame; 65535 takes the long form. */
  function LengthField(size: nat): seq<byte>
    requires size < Pow256(8)
  {
    if size < 126 then [0x80 + size]
    else if size < 0xFFFF then [0x80 + 126] + BigEndian(size, 2)
    else [0x80 + 127] + BigEndian(size, 8)
  }

  /** A final, masked frame. */
  function Frame(kind: byte, payload: seq<byte>, key: seq<byte>): seq<byte>
    requires kind < 16 && |key| == 4 && |payload| < Pow256(8)
  {
    [0x80 + kind] + LengthField(|payload|) + key + Masked(payload, key, 0)
  }

  // ---------------------------------------------------------------- an independent reader of frames

  /** A frame header: first byte, mask bit, size, key (empty if unmasked), and the number of bytes it takes. */
  datatype Header = Header(opcode: byte, masked: bool, size: nat, key: seq<byte>, length: nat)

  /** The header at the beginning of bs, once all of it is there. */
  function ParseHeader(bs: seq<byte>): (h: Option<Header>)
    ensures h.Some? && h.value.masked ==> |h.value.key| == 4
  {
    if |bs| < 2 then None
    else
      var masked, short := bs[1] >= 128, bs[1] % 128;
      var k := if short < 126 then 0 else if short == 126 then 2 else 8;
      var at := 2 + k;
      var end := if masked then at + 4 else at;
      if |bs| < end then None
      else
        Some(Header(bs[0], masked, if k == 0 then short else FromBigEndian(bs[2..at]),
                    if masked then bs[at..end] else [], end))
  }

  /** Where the length of a header ends. */
  function LengthEnd(bs: seq<byte>): (at: nat)
    requires |bs| >= 2
  {
    if bs[1] % 128 < 126 then 2 else if bs[1] % 128 == 126 then 4 else 10
  }

  lemma HeaderParts(bs: seq<byte>)
    ensures ParseHeader(bs).Some? ==>
      var (h, at) := (ParseHeader(bs).value, LengthEnd(bs));
      && |bs| >= h.length && h.opcode == bs[0] && (h.masked <==> bs[1] >= 128)
      && h.length == (if h.masked then at + 4 else at)
      && h.size == (if at == 2 then bs[1] % 128 else FromBigEndian(bs[2..at]))
      && (h.masked ==> h.key == bs[at..at + 4])
  {
  }

  /** What an octet that is not there makes of a size: all ones, in 64 bits. */
  const ALL_ONES: nat := 0xFFFF_FFFF_FFFF_FFFF

  function Skip(bs: seq<byte>, k: nat): seq<byte> {
    bs[if k < |bs| then k else |bs|..]
  }

  /** The size taken from k octets; an octet that is missing reads -1. */
  function SizeFrom(bs: seq<byte>, k: nat): nat {
    if k <= |bs| then FromBigEndian(bs[..k]) else ALL_ONES
  }

  /** Octet k, as it is stored in a byte when it is missing. */
  function OctetAt(bs: seq<byte>, k: nat): byte {
    if k < |bs| then bs[k] else 255
  }

  /** What comes after k octets. */
  lemma SkipNext(bs: seq<byte>, k: nat)
    ensures Skip(Skip(bs, k), 1) == Skip(bs, k + 1)
    ensures OctetAt(Skip(bs, k), 0) == OctetAt(bs, k)
  {
  }

  function KeyFrom(bs: seq<byte>): (key: seq<byte>)
    ensures |key| == 4
  {
    [OctetAt(bs, 0), OctetAt(bs, 1), OctetAt(bs, 2), OctetAt(bs, 3)]
  }

  lemma KeyNext(bs: seq<byte>, k: nat)
    requires k < 4
    ensures KeyFrom(bs)[..k + 1] == KeyFrom(bs)[..k] + [OctetAt(bs, k)]
  {
  }

  /** The header the client makes of what has arrived, of which it has only seen that it is two octets at least. */
  function TakenHeader(bs: seq<byte>): (h: Header)
    requires |bs| >= 2
    ensures h.length <= |bs|
  {
    var at, masked := LengthEnd(bs), bs[1] >= 128;
    Header(bs[0], masked, if at == 2 then bs[1] % 128 else SizeFrom(bs[2..], at - 2),
           if masked then KeyFrom(Skip(bs, at)) else [], |bs| - |Skip(bs, if masked then at + 4 else at)|)
  }

  lemma WholeHeader(bs: seq<byte>)
    requires ParseHeader(bs).Some?
    ensures TakenHeader(bs) == ParseHeader(bs).value
  {
    HeaderParts(bs);
    var at := LengthEnd(bs);
    hide FromBigEndian, ParseHeader;
    Slices(bs, 2, at - 2);
    if bs[1] >= 128 {
      Slices(bs, at, 4);
    }
  }

  /** Where the header ends. */
  function HeaderEnd(bs: seq<byte>): nat
    requires |bs| >= 2
  {
    if bs[1] >= 128 then LengthEnd(bs) + 4 else LengthEnd(bs)
  }

  lemma Arrived(bs: seq<byte>)
    requires |bs| >= 2
    ensures ParseHeader(bs).Some? <==> HeaderEnd(bs) <= |bs|
    ensures ParseHeader(bs).Some? ==> ParseHeader(bs).value.length == HeaderEnd(bs)
  {
  }

  /** Whatever arrives later, the header taken is the one that was sent exactly when all of it has arrived. */
  lemma HeaderInParts(bs: seq<byte>, more: seq<byte>)
    requires |bs| >= 2 && ParseHeader(bs + more).Some?
    ensures TakenHeader(bs) == ParseHeader(bs + more).value <==> ParseHeader(bs).Some?
  {
    var all, end := bs + more, HeaderEnd(bs);
    assert all[1] == bs[1];
    Arrived(bs);
    Arrived(all);
    if end <= |bs| {
      var at := LengthEnd(bs);
      HeaderParts(all);
      HeaderParts(bs);
      WholeHeader(bs);
      hide *;
      Within(bs, more, 2, at);
      if all[1] >= 128 {
        Within(bs, more, at, at + 4);
      }
      assert ParseHeader(bs).value == ParseHeader(all).value;
    }
  }

  lemma Within(s: seq<byte>, t: seq<byte>, i: nat, j: nat)
    requires i <= j <= |s|
    ensures (s + t)[i..j] == s[i..j]
  {
  }

  lemma {:induction false} FromBigEndianBound(bs: seq<byte>)
    ensures FromBigEndian(bs) < Pow256(|bs|)
  {
    if bs != [] {
      FromBigEndianBound(bs[..|bs| - 1]);
    }
  }

  lemma {:induction false} BigEndianInverse(n: nat, k: nat)
    requires n < Pow256(k)
    ensures FromBigEndian(BigEndian(n, k)) == n
  {
    if k > 0 {
      BigEndianInverse(n / 256, k - 1);
      assert BigEndian(n, k)[..k - 1] == BigEndian(n / 256, k - 1);
    }
  }

  lemma Sizes()
    ensures Pow256(2) == 0x1_0000 && Pow256(4) == 0x1_0000_0000 && Pow256(8) == 0x1_0000_0000_0000_0000
  {
    assert Pow256(2) == 0x1_0000;
    assert Pow256(4) == 0x1_0000_0000;
  }

  /** Masking with the same key and index undoes masking, wherever the payload is cut. */
  lemma UnmaskPart(payload: seq<byte>, key: seq<byte>, start: nat, i: nat, j: nat)
    requires |key| == 4 && i <= j <= |payload|
    ensures Masked(Masked(payload, key, start)[i..j], key, start + i) == payload[i..j]
  {
    var m := Masked(payload, key, start);
    var r := Masked(m[i..j], key, start + i);
    forall k | 0 <= k < j - i
      ensures r[k] == payload[i..j][k]
    {
      var key0 := KeyAt(key, start + i + k);
      assert r[k] == Xor(Xor(payload[i + k], key0), key0);
      XorTwice(payload[i + k], key0, key0);
    }
  }

  /** Reading back the frame that was written: the header comes first, then exactly the masked payload. */
  lemma FrameParses(kind: byte, payload: seq<byte>, key: seq<byte>, more: seq<byte>)
    requires kind < 16 && |key| == 4 && |payload| < Pow256(8)
    ensures var bs := Frame(kind, payload, key) + more; var h := ParseHeader(bs);
      && h.Some? && h.value.opcode == 0x80 + kind && h.value.masked
      && h.value.size == |payload| && h.value.key == key
      && h.value.length + |payload| <= |bs|
      && bs[h.value.length..] == Masked(payload, key, 0) + more
  {
    Sizes();
    var n := |payload|;
    var f := LengthField(n);
    var bs := Frame(kind, payload, key) + more;
    assert bs == [0x80 + kind] + f + key + (Masked(payload, key, 0) + more);
    var at := 1 + |f|;
    assert bs[at..at + 4] == key && bs[at + 4..] == Masked(payload, key, 0) + more;
    assert bs[1] == f[0];
    if n >= 126 {
      assert bs[2..at] == f[1..];
      if n < 0xFFFF {
        BigEndianInverse(n, 2);
        assert f[1..] == BigEndian(n, 2);
      } else {
        BigEndianInverse(n, 8);
        assert f[1..] == BigEndian(n, 8);
      }
    }
  }

  const HELLO: seq<byte> := [0x48, 0x65, 0x6C, 0x6C, 0x6F]

  /** "Hello" as a text or as the answer to a ping, octet by octet as in section 5.7 of RFC 6455. */
  lemma Example(kind: byte, key: seq<byte>)
    requires |key| == 4 && (kind == 1 || kind == TYPE_PONG)
    ensures Frame(kind, HELLO, key) == [if kind == 1 then 0x81 else 0x8A, 0x85] + key +
      [Xor(0x48, key[0]), Xor(0x65, key[1]), Xor(0x6C, key[2]), Xor(0x6C, key[3]), Xor(0x6F, key[0])]
  {
    assert LengthField(5) == [0x85];
    hide Xor, LengthField;
  }

  /** The two longer forms of the length. */
  lemma LongLengths()
    ensures LengthField(256) == [0xFE, 1, 0]
    ensures LengthField(0x1_0000) == [0xFF, 0, 0, 0, 0, 0, 1, 0, 0]
  {
  }

  /** Section 5.2 asks for the shortest length form; the writer keeps to it except at 65535. */
  lemma ShortestExact(size: nat)
    requires size < Pow256(8)
    ensures |LengthField(size)| == (if size < 126 then 1 else if size < 0x1_0000 then 3 else 9) <==> size != 0xFFFF
  {
  }

  function Plain(data: seq<byte>, masked: bool, key: seq<byte>, start: nat): seq<byte>
    requires |key| == 4
  {
    if masked then Masked(data, key, start) else data
  }

  /** What the payload of a frame means. */
  function Payload(h: Header, data: seq<byte>): seq<byte>
    requires h.masked ==> |h.key| == 4
  {
    if h.masked then Masked(data, h.key, 0) else data
  }

  lemma PlainHead(data: seq<byte>, masked: bool, key: seq<byte>, start: nat)
    requires |key| == 4 && data != []
    ensures Plain(data, masked, key, start)
            == Plain(data[..1], masked, key, start) + Plain(data[1..], masked, key, start + if masked then 1 else 0)
  {
    if masked {
      var l, r := Masked(data, key, start), Masked(data[..1], key, start) + Masked(data[1..], key, start + 1);
      hide KeyAt, Xor;
      forall i | 0 <= i < |l|
        ensures l[i] == r[i]
      {
        if i > 0 {
          assert r[i] == Masked(data[1..], key, start + 1)[i - 1];
          assert start + 1 + (i - 1) == start + i;
        }
      }
      assert l == r;
    }
  }

  lemma EchoStep(m: seq<byte>, data: seq<byte>, masked: bool, key: seq<byte>, start: nat, b: byte)
    requires |key| == 4 && data != [] && [b] == Plain(data[..1], masked, key, start)
    ensures (m + [b]) + Plain(data[1..], masked, key, start + if masked then 1 else 0)
            == m + Plain(data, masked, key, start)
  {
    PlainHead(data, masked, key, start);
    hide Plain;
    var rest := Plain(data[1..], masked, key, start + if masked then 1 else 0);
    assert m + ([b] + rest) == (m + [b]) + rest;
  }

  /** After some reads of `cuts` bytes each, what they return, the mask index going on from `at`. */
  function ReadParts(data: seq<byte>, key: seq<byte>, at: nat, cuts: seq<nat>): (r: seq<byte>)
    requires |key| == 4 && Sum(cuts) <= |data|
    decreases |cuts|
  {
    if cuts == [] then []
    else Masked(data[..cuts[0]], key, at) + ReadParts(data[cuts[0]..], key, at + cuts[0], cuts[1..])
  }

  function Sum(cuts: seq<nat>): nat
    decreases |cuts|
  {
    if cuts == [] then 0 else cuts[0] + Sum(cuts[1..])
  }

  lemma FirstPart(data: seq<byte>, key: seq<byte>, at: nat, cuts: seq<nat>)
    requires |key| == 4 && cuts != [] && Sum(cuts) <= |data|
    ensures ReadParts(data, key, at, cuts) ==
      Masked(data[..cuts[0]], key, at) + ReadParts(data[cuts[0]..], key, at + cuts[0], cuts[1..])
  {
  }

  lemma CutOne(m: seq<byte>, more: seq<byte>, i: nat, j: nat)
    requires i <= j <= |m|
    ensures (m + more)[i..][..j - i] == m[i..j] && (m + more)[i..][j - i..] == (m + more)[j..]
  {
  }

  lemma NextPart(m: seq<byte>, more: seq<byte>, key: seq<byte>, i: nat, cuts: seq<nat>)
    requires |key| == 4 && cuts != [] && i + Sum(cuts) <= |m|
    ensures ReadParts((m + more)[i..], key, i, cuts) ==
      Masked(m[i..i + cuts[0]], key, i) + ReadParts((m + more)[i + cuts[0]..], key, i + cuts[0], cuts[1..])
  {
    FirstPart((m + more)[i..], key, i, cuts);
    CutOne(m, more, i, i + cuts[0]);
    hide Masked, ReadParts;
  }

  lemma {:induction false} PartsFrom(payload: seq<byte>, key: seq<byte>, more: seq<byte>, i: nat, cuts: seq<nat>)
    requires |key| == 4 && i + Sum(cuts) <= |payload|
    ensures ReadParts((Masked(payload, key, 0) + more)[i..], key, i, cuts) == payload[i..i + Sum(cuts)]
    decreases |cuts|
  {
    if cuts != [] {
      var j, rest := i + cuts[0], cuts[1..];
      var m := Masked(payload, key, 0);
      assert Sum(cuts) == cuts[0] + Sum(rest);
      hide *;
      NextPart(m, more, key, i, cuts);
      UnmaskPart(payload, key, 0, i, j);
      PartsFrom(payload, key, more, j, rest);
      Rejoin(payload, i, j, j + Sum(rest), Masked(m[i..j], key, i), ReadParts((m + more)[j..], key, j, rest));
    }
  }

  lemma Rejoin(s: seq<byte>, i: nat, j: nat, k: nat, a: seq<byte>, b: seq<byte>)
    requires i <= j <= k <= |s| && a == s[i..j] && b == s[j..k]
    ensures a + b == s[i..k]
  {
  }

  /**
   Main result: over all payloads, kinds and keys, and whatever follows on the wire, reading back the frame and then
   its payload in parts of any sizes gives the payload, across all three length forms.
   */
  lemma RoundTrip(kept: byte, kind: byte, payload: seq<byte>, key: seq<byte>, more: seq<byte>, cuts: seq<nat>)
    requires kind < 16 && |key| == 4 && |payload| < Pow256(8) && Sum(cuts) == |payload|
    ensures var bs := Frame(kind, payload, key) + more; var h := ParseHeader(bs);
      && h.Some? && h.value.size == |payload| && h.value.length + |payload| <= |bs|
      && Final(NextOpcode(kept, h.value.opcode))
      && (kind != TYPE_CONTINUATION ==> Kind(NextOpcode(kept, h.value.opcode)) == kind)
      && ReadParts(bs[h.value.length..], h.value.key, 0, cuts) == payload
  {
    FrameParses(kind, payload, key, more);
    var data := Masked(payload, key, 0) + more;
    PartsFrom(payload, key, more, 0, cuts);
    assert data[0..] == data && payload[0..|payload|] == payload;
    OrTop(kept, 0x80 + kind);
  }

  /** The keys for the bytes after the first a are the ones for the bytes after the first b. */
  predicate KeysAgree(key: seq<byte>, a: nat, b: nat)
    requires |key| == 4
  {
    Rotated(key, a) == Rotated(key, b)
  }

  function Rotated(key: seq<byte>, a: nat): (r: seq<byte>)
    requires |key| == 4
    ensures |r| == 4
  {
    [KeyAt(key, a), KeyAt(key, a + 1), KeyAt(key, a + 2), KeyAt(key, a + 3)]
  }

  lemma Remasked(payload: seq<byte>, key: seq<byte>, a: nat, b: nat)
    requires |key| == 4 && KeysAgree(key, a, b)
    ensures Masked(Masked(payload, key, a), key, b) == payload
  {
    var r := Masked(Masked(payload, key, a), key, b);
    forall k | 0 <= k < |payload|
      ensures r[k] == payload[k]
    {
      SameKey(key, a, b, k);
      XorTwice(payload[k], KeyAt(key, a + k), KeyAt(key, b + k));
    }
  }

  lemma UnmaskedElsewhere(payload: seq<byte>, key: seq<byte>, start: nat, cut: nat, b: nat)
    requires |key| == 4 && cut <= |payload| && KeysAgree(key, start + cut, b)
    ensures Masked(Masked(payload, key, start)[cut..], key, b) == payload[cut..]
  {
    assert Masked(payload, key, start)[cut..] == Masked(payload[cut..], key, start + cut) by {
      hide KeyAt, Xor, KeysAgree;
    }
    Remasked(payload[cut..], key, start + cut, b);
  }

  /** A payload that comes out wrong when the keys differ. */
  function Zeros(n: nat): seq<byte> {
    seq<byte>(n, j => 0)
  }

  lemma ZerosDiffer(key: seq<byte>, start: nat, cut: nat, b: nat)
    requires |key| == 4 && !KeysAgree(key, start + cut, b)
    ensures Masked(Masked(Zeros(cut + 4), key, start)[cut..], key, b) != Zeros(cut + 4)[cut..]
  {
    var i :| 0 <= i < 4 && Rotated(key, start + cut)[i] != Rotated(key, b)[i];
    var rest := Masked(Zeros(cut + 4), key, start)[cut..];
    XorTwice(0, KeyAt(key, start + cut + i), KeyAt(key, b + i));
    hide KeyAt, Xor;
    assert rest[i] == Xor(0, KeyAt(key, start + (cut + i))) && start + (cut + i) == start + cut + i;
    assert Masked(rest, key, b)[i] != Zeros(cut + 4)[cut..][i];
  }

  /**
   A read that gets fewer bytes than it asked for still moves the mask index by what it asked for: what follows is
   unmasked right, for all payloads, exactly when the key looks the same from both indices.
   */
  lemma ShortReadExact(key: seq<byte>, start: nat, readCount: nat, aSize: nat)
    requires |key| == 4 && readCount <= aSize
    ensures KeysAgree(key, start + readCount, start + aSize) <==>
      forall payload: seq<byte> | |payload| >= readCount ::
        Masked(Masked(payload, key, start)[readCount..], key, start + aSize) == payload[readCount..]
  {
    if KeysAgree(key, start + readCount, start + aSize) {
      forall payload: seq<byte> | |payload| >= readCount
        ensures Masked(Masked(payload, key, start)[readCount..], key, start + aSize) == payload[readCount..]
      {
        UnmaskedElsewhere(payload, key, start, readCount, start + aSize);
      }
    } else {
      ZerosDiffer(key, start, readCount, start + aSize);
      assert |Zeros(readCount + 4)| >= readCount;
    }
  }

  lemma SameKey(key: seq<byte>, a: nat, b: nat, k: nat)
    requires |key| == 4 && KeysAgree(key, a, b)
    ensures KeyAt(key, a + k) == KeyAt(key, b + k)
  {
    var q, i := k / 4, k % 4;
    assert Rotated(key, a)[i] == KeyAt(key, a + i) && Rotated(key, b)[i] == KeyAt(key, b + i);
    ModShift(a + i, q);
    ModShift(b + i, q);
    assert a + k == a + i + 4 * q && b + k == b + i + 4 * q;
  }

  lemma ModShift(x: nat, q: nat)
    ensures (x + 4 * q) % 4 == x % 4
  {
    DivUnique(x + 4 * q, x / 4 + q, x % 4, 4);
  }

  /** How a frame's first byte updates the one that is kept: a continuation only adds its flags. */
  function NextOpcode(kept: byte, opcode: byte): byte {
    if opcode % 16 == TYPE_CONTINUATION then Or(kept, opcode) else opcode
  }

  function Kind(opcode: byte): byte {
    opcode % 16
  }

  predicate Final(opcode: byte) {
    opcode >= 128
  }

  /** The opcodes of section 5.2 of RFC 6455. */
  lemma Opcodes(opcode: byte)
    ensures Kind(opcode) == TYPE_CONTINUATION <==> opcode % 16 == 0
    ensures Kind(opcode) == TYPE_CONNECTION_CLOSE <==> opcode % 16 == 8
    ensures Kind(opcode) == TYPE_PING <==> opcode % 16 == 9
    ensures Kind(opcode) == TYPE_PONG <==> opcode % 16 == 10
    ensures Final(opcode) <==> opcode / 128 == 1
  {
  }

  function KeptAfter(kept: byte, opcodes: seq<byte>): byte {
    if opcodes == [] then kept else NextOpcode(KeptAfter(kept, opcodes[..|opcodes| - 1]), opcodes[|opcodes| - 1])
  }

  /** Over the fragments of a message its type stays that of the first, and it is final once a final one came. */
  lemma {:induction false} FragmentedMessage(kept: byte, first: byte, rest: seq<byte>)
    requires Kind(first) != TYPE_CONTINUATION
    requires forall i :: 0 <= i < |rest| ==> Kind(rest[i]) == TYPE_CONTINUATION
    ensures var r := KeptAfter(kept, [first] + rest);
      && Kind(r) == Kind(first)
      && (Final(r) <==> Final(first) || exists i :: 0 <= i < |rest| && Final(rest[i]))
    decreases |rest|
  {
    var all := [first] + rest;
    if rest == [] {
      assert all[..0] == [];
    } else {
      var k := |rest| - 1;
      assert all[..|all| - 1] == [first] + rest[..k];
      FragmentedMessage(kept, first, rest[..k]);
      var before := KeptAfter(kept, [first] + rest[..k]);
      OrKeepsLow(before, rest[k]);
      OrTop(before, rest[k]);
      assert forall i :: 0 <= i < k ==> rest[..k][i] == rest[i];
    }
  }

  const WRAP: nat := 0x1_0000_0000

  /** How many bytes the loops on `available()` take: the 64-bit size, cut to an `int`, counts down to zero. */
  function Pending(size: nat): nat {
    size % WRAP
  }

  /** A 64-bit size as an `int`. */
  function AsInt(size: nat): int {
    if Pending(size) < WRAP / 2 then Pending(size) else Pending(size) - WRAP
  }

  lemma OneTaken(size: nat)
    requires Pending(size) > 0
    ensures size > 0 && Pending(size - 1) == Pending(size) - 1
  {
    DivUnique(size - 1, size / WRAP, size % WRAP - 1, WRAP);
  }

  // ---------------------------------------------------------------- the client

  class WebSocketClient {
    var iTxStarted: bool
    var iTxMessageType: byte
    const iTxBuffer: array<byte>
    var iTxSize: nat
    var iRxOpCode: byte
    var iRxSize: nat
    var iRxMasked: bool
    var iRxMaskIndex: nat
    var iRxMaskKey: seq<byte>
    var sent: seq<byte>      // what the socket was given
    var incoming: seq<byte>  // what the socket holds
    var connected: bool

    ghost predicate Valid()
      reads this
    {
      && iTxSize <= iTxBuffer.Length < 0x8000_0000 && iTxMessageType < 16 && |iRxMaskKey| == 4
      && iRxSize <= ALL_ONES
    }

    /** What the message under construction holds. */
    ghost function Message(): seq<byte>
      requires iTxSize <= iTxBuffer.Length
      reads `iTxSize, iTxBuffer
    {
      iTxBuffer[..iTxSize]
    }

    /** A client right after the upgrade, with a transmit buffer of the configured size. */
    constructor (bufferSize: nat)
      requires bufferSize < 0x8000_0000
      ensures Valid() && !iTxStarted && iRxSize == 0 && sent == [] && incoming == [] && connected
      ensures iTxBuffer.Length == bufferSize && fresh(iTxBuffer)
    {
      iTxBuffer := new byte[bufferSize](i => 0);
      iTxStarted, iTxMessageType, iTxSize := false, 0, 0;
      iRxOpCode, iRxSize, iRxMasked, iRxMaskIndex, iRxMaskKey := 0, 0, false, 0, [0, 0, 0, 0];
      sent, incoming, connected := [], [], true;
    }

    method BeginMessage(aType: nat) returns (failed: int)
      requires Valid()
      modifies `iTxStarted, `iTxMessageType, `iTxSize
      ensures Valid() && iTxStarted
      ensures if old(iTxStarted)
              then failed == 1 && Message() == old(Message()) && iTxMessageType == old(iTxMessageType)
              else failed == 0 && Message() == [] && iTxMessageType == aType % 16
    {
      if iTxStarted {
        return 1;
      }
      iTxStarted := true;
      iTxMessageType := aType % 16;
      iTxSize := 0;
      return 0;
    }

    /** A message that the data does not fit is cut by the size of the counter, which must not have been passed yet. */
    ghost predicate Takes(size: nat)
      reads this
    {
      iTxSize + size <= iTxBuffer.Length || iTxSize <= 8 <= iTxBuffer.Length
    }

    /** Adds data to the message: all of it if it fits, otherwise what makes the message eight bytes long. */
    method Write(data: seq<byte>) returns (n: nat)
      requires Valid() && (iTxStarted ==> Takes(|data|))
      modifies `iTxSize, iTxBuffer
      ensures Valid() && n <= |data|
      ensures n == (if !iTxStarted then 0
                    else if old(iTxSize) + |data| <= iTxBuffer.Length then |data| else 8 - old(iTxSize))
      ensures Message() == old(Message()) + data[..n]
    {
      if !iTxStarted {
        assert data[..0] == [];
        return 0;
      }
      n := |data|;
      if iTxSize + |data| > iTxBuffer.Length {
        n := 8 - iTxSize;
      }
      for i := 0 to n
        invariant iTxBuffer[..iTxSize + i] == old(Message()) + data[..i]
        modifies iTxBuffer
      {
        iTxBuffer[iTxSize + i] := data[i];
      }
      iTxSize := iTxSize + n;
    }

    /** Combines the message with the key, in place. */
    method Mask(key: seq<byte>)
      requires Valid() && |key| == 4
      modifies iTxBuffer
      ensures iTxBuffer[..iTxSize] == Masked(old(iTxBuffer[..iTxSize]), key, 0)
    {
      for i := 0 to iTxSize
        invariant forall k :: 0 <= k < i ==> iTxBuffer[k] == Xor(old(iTxBuffer[k]), KeyAt(key, k))
        invariant forall k :: i <= k < iTxSize ==> iTxBuffer[k] == old(iTxBuffer[k])
      {
        iTxBuffer[i] := Xor(iTxBuffer[i], key[i % 4]);
      }
    }

    /** The first byte and the length field of the frame. */
    method FrameHead() returns (head: seq<byte>)
      requires Valid()
      ensures iTxSize < Pow256(8) && head == [0x80 + iTxMessageType] + LengthField(iTxSize)
    {
      Sizes();
      head := [0x80 + iTxMessageType];
      if iTxSize < 126 {
        head := head + [0x80 + iTxSize];
      } else if iTxSize < 0xFFFF {
        head := head + [0x80 + 126];
        head := head + [iTxSize / 0x100 % 256, iTxSize % 256];
        TwoBytes(iTxSize);
      } else {
        head := head + [0x80 + 127];
        head := head + [iTxSize / 0x100_0000_0000_0000 % 256, iTxSize / 0x1_0000_0000_0000 % 256,
                        iTxSize / 0x100_0000_0000 % 256, iTxSize / 0x1_0000_0000 % 256,
                        iTxSize / 0x100_0000 % 256, iTxSize / 0x1_0000 % 256, iTxSize / 0x100 % 256, iTxSize % 256];
        EightBytes(iTxSize);
      }
    }

    /** Sends the message as one final masked frame; `key` is the random mask. */
    method EndMessage(key: seq<byte>) returns (failed: int)
      requires Valid() && |key| == 4
      modifies `sent, `iTxStarted, `iTxSize, iTxBuffer
      ensures Valid() && !iTxStarted
      ensures old(iTxStarted) <==> failed == 0
      ensures |old(Message())| < Pow256(8)
      ensures sent == if old(iTxStarted) then old(sent) + Frame(iTxMessageType, old(Message()), key) else old(sent)
      ensures old(iTxStarted) ==> Message() == []
    {
      hide LengthField, Pow256;
      var frame := FrameHead();
      if !iTxStarted {
        return 1;
      }
      Mask(key);
      sent := sent + (frame + key + iTxBuffer[..iTxSize]);
      iTxStarted := false;
      iTxSize := 0;
      return 0;
    }

    // -------------------------------------------------------------- receiving

    function MessageType(): byte
      reads `iRxOpCode
    {
      Kind(iRxOpCode)
    }

    /** What `data` from the wire means to the reader of the current message. */
    ghost function Unmasked(data: seq<byte>): seq<byte>
      requires Valid()
      reads this
    {
      Plain(data, iRxMasked, iRxMaskKey, iRxMaskIndex)
    }

    /** Combines aSize bytes with the mask, in place, and moves the mask index. */
    method Unmask(aBuffer: array<byte>, aSize: nat)
      requires Valid() && aSize <= aBuffer.Length
      modifies `iRxMaskIndex, aBuffer
      ensures Valid() && iRxMaskIndex == old(iRxMaskIndex) + aSize
      ensures forall k :: 0 <= k < aSize ==>
        aBuffer[k] == Xor(old(aBuffer[k]), KeyAt(iRxMaskKey, old(iRxMaskIndex) + k))
    {
      hide Xor;
      ghost var start := iRxMaskIndex;
      for i := 0 to aSize
        invariant iRxMaskIndex == start + i
        invariant forall k :: 0 <= k < i ==> aBuffer[k] == Xor(old(aBuffer[k]), KeyAt(iRxMaskKey, start + k))
        invariant forall k :: i <= k < aSize ==> aBuffer[k] == old(aBuffer[k])
        modifies aBuffer, `iRxMaskIndex
      {
        aBuffer[i] := Xor(aBuffer[i], iRxMaskKey[iRxMaskIndex % 4]);
        iRxMaskIndex := iRxMaskIndex + 1;
      }
    }

    /**
     Reads up to aSize bytes into aBuffer, of the current message or, past its end, of what follows it. The mask index
     moves by aSize even if fewer bytes have arrived.
     */
    method Read(aBuffer: array<byte>, aSize: nat) returns (readCount: nat)
      requires Valid() && aSize <= aBuffer.Length
      modifies `incoming, `iRxSize, `iRxMaskIndex, aBuffer
      ensures Valid() && readCount == (if aSize < |old(incoming)| then aSize else |old(incoming)|)
      ensures incoming == old(incoming)[readCount..]
      ensures iRxSize == (old(iRxSize) - readCount) % (ALL_ONES + 1)
      ensures aBuffer[..readCount] == old(Unmasked(incoming[..if aSize < |incoming| then aSize else |incoming|]))
      ensures iRxMaskIndex == old(iRxMaskIndex) + if iRxMasked && readCount > 0 then aSize else 0
    {
      readCount := if aSize < |incoming| then aSize else |incoming|;
      for i := 0 to readCount
        invariant forall k :: 0 <= k < i ==> aBuffer[k] == incoming[k]
        modifies aBuffer
      {
        aBuffer[i] := incoming[i];
      }
      incoming := incoming[readCount..];
      if readCount > 0 {
        iRxSize := (iRxSize - readCount) % (ALL_ONES + 1);
        if iRxMasked {
          Unmask(aBuffer, aSize);
        }
      }
    }

    /** Reads one byte of a message that has arrived. */
    method ReadByte() returns (b: byte)
      requires Valid() && 0 < iRxSize && incoming != []
      modifies `incoming, `iRxSize, `iRxMaskIndex
      ensures Valid() && incoming == old(incoming)[1..] && iRxSize == old(iRxSize) - 1
      ensures [b] == old(Unmasked(incoming[..1]))
      ensures iRxMaskIndex == old(iRxMaskIndex) + if iRxMasked then 1 else 0
    {
      var one := new byte[1];
      var n := Read(one, 1);
      b := one[0];
      assert one[..1] == [b];
    }

    /** Throws away what is left of the current message. */
    method FlushRx()
      requires Valid() && Pending(iRxSize) <= |incoming|
      modifies `incoming, `iRxSize, `iRxMaskIndex
      ensures Valid() && iRxSize == old(iRxSize) - Pending(old(iRxSize))
      ensures incoming == old(incoming)[Pending(old(iRxSize))..]
    {
      while Pending(iRxSize) > 0
        invariant Valid() && Pending(iRxSize) <= |incoming| && iRxSize <= old(iRxSize)
        invariant iRxSize - Pending(iRxSize) == old(iRxSize) - Pending(old(iRxSize))
        invariant incoming == old(incoming)[Pending(old(iRxSize)) - Pending(iRxSize)..]
        decreases iRxSize
      {
        OneTaken(iRxSize);
        hide Pending;
        var b := ReadByte();
      }
    }

    /** Moves a byte of the current message to the message under construction. */
    method EchoByte()
      requires Valid() && iTxStarted && 0 < Pending(iRxSize) <= |incoming| && iTxSize < iTxBuffer.Length
      modifies `incoming, `iRxSize, `iRxMaskIndex, `iTxSize, iTxBuffer
      ensures Valid() && incoming == old(incoming)[1..] && iTxSize == old(iTxSize) + 1
      ensures old(iRxSize) > 0 && iRxSize == old(iRxSize) - 1 && Pending(iRxSize) == Pending(old(iRxSize)) - 1
      ensures Message() + Unmasked(incoming[..Pending(iRxSize)])
              == old(Message() + Unmasked(incoming[..Pending(iRxSize)]))
    {
      OneTaken(iRxSize);
      hide Plain, Pending;
      ghost var m, data, start := Message(), incoming[..Pending(iRxSize)], iRxMaskIndex;
      assert data[..1] == incoming[..1];
      var b := ReadByte();
      assert data[1..] == incoming[..Pending(iRxSize)];
      EchoStep(m, data, iRxMasked, iRxMaskKey, start, b);
      var n := Write([b]);
      assert Message() == m + [b] by {
        assert [b][..1] == [b];
      }
    }

    /** Moves the rest of the current message to the message under construction. */
    method Echo()
      requires Valid() && iTxStarted
      requires Pending(iRxSize) <= |incoming| && iTxSize + Pending(iRxSize) <= iTxBuffer.Length
      modifies `incoming, `iRxSize, `iRxMaskIndex, `iTxSize, iTxBuffer
      ensures Valid() && incoming == old(incoming)[Pending(old(iRxSize))..]
      ensures Message() == old(Message()) + old(Unmasked(incoming[..Pending(iRxSize)]))
    {
      ghost var all := Message() + Unmasked(incoming[..Pending(iRxSize)]);
      ghost var raw, size := incoming, Pending(iRxSize);
      hide Pending;
      while Pending(iRxSize) > 0
        invariant Valid() && iTxStarted && Pending(iRxSize) <= |incoming| && Pending(iRxSize) <= size
        invariant iTxSize + Pending(iRxSize) <= iTxBuffer.Length
        invariant incoming == raw[size - Pending(iRxSize)..]
        invariant Message() + Unmasked(incoming[..Pending(iRxSize)]) == all
        decreases iRxSize
        modifies `incoming, `iRxSize, `iRxMaskIndex, `iTxSize, iTxBuffer
      {
        EchoByte();
      }
    }

    /** The type of the frame that answers a ping: a pong, unless a message is under construction. */
    function ReplyType(): byte
      reads `iTxStarted, `iTxMessageType
    {
      if iTxStarted then iTxMessageType else TYPE_PONG
    }

    /** What that frame begins with. */
    ghost function ReplyStart(): seq<byte>
      requires iTxSize <= iTxBuffer.Length
      reads `iTxStarted, `iTxSize, iTxBuffer
    {
      if iTxStarted then Message() else []
    }

    /** A frame of this type with `start` and `data` for a payload has been sent. */
    ghost predicate Replied(soFar: seq<byte>, kind: byte, start: seq<byte>, data: seq<byte>, key: seq<byte>)
      reads `sent
    {
      && kind < 16 && |key| == 4 && |start + data| < Pow256(8)
      && sent == soFar + Frame(kind, start + data, key)
    }

    /** Sends what is left of the current message back, behind what a message under construction holds already. */
    method Pong(key: seq<byte>)
      requires Valid() && |key| == 4
      requires Pending(iRxSize) <= |incoming| && |ReplyStart()| + Pending(iRxSize) <= iTxBuffer.Length
      modifies `incoming, `iRxSize, `iRxMaskIndex, `iTxStarted, `iTxMessageType, `iTxSize, `sent, iTxBuffer
      ensures Valid() && incoming == old(incoming)[Pending(old(iRxSize))..] && !iTxStarted
      ensures Replied(old(sent), old(ReplyType()), old(ReplyStart()), old(Unmasked(incoming[..Pending(iRxSize)])), key)
    {
      Sizes();
      var failed := BeginMessage(TYPE_PONG);
      assert Message() == old(ReplyStart());
      Echo();
      failed := EndMessage(key);
    }

    /** Takes the next octet of a frame header from the socket, or -1. */
    method Next() returns (b: int)
      modifies `incoming
      ensures b == if old(incoming) == [] then -1 else old(incoming)[0]
      ensures incoming == Skip(old(incoming), 1)
    {
      if incoming == [] {
        return -1;
      }
      b := incoming[0];
      incoming := incoming[1..];
    }

    /** The k octets of an extended length. A missing one is the last at least, and makes the result all ones. */
    method NextSize(k: nat) returns (size: nat)
      modifies `incoming
      ensures size == SizeFrom(old(incoming), k) && incoming == Skip(old(incoming), k)
    {
      size := 0;
      for i := 0 to k
        invariant size == SizeFrom(old(incoming), i) && incoming == Skip(old(incoming), i)
      {
        if i < |old(incoming)| {
          assert old(incoming)[..i + 1][..i] == old(incoming)[..i];
        }
        var b := Next();
        size := if b < 0 then ALL_ONES else size * 0x100 + b;
      }
    }

    /** The size, from the short length and the extended length behind it. */
    method ReadLength(short: nat, ghost bs: seq<byte>)
      requires |bs| >= 2 && incoming == bs[2..] && short == bs[1] % 128
      modifies `incoming, `iRxSize
      ensures iRxSize == (if LengthEnd(bs) == 2 then short else SizeFrom(bs[2..], LengthEnd(bs) - 2))
      ensures incoming == Skip(bs, LengthEnd(bs))
    {
      if short < 126 {
        iRxSize := short;
      } else if short == 126 {
        iRxSize := NextSize(2);
      } else {
        iRxSize := NextSize(8);
      }
    }

    /** The next octet, as it is stored in a byte. */
    method NextOctet() returns (octet: byte)
      modifies `incoming
      ensures octet == OctetAt(old(incoming), 0) && incoming == Skip(old(incoming), 1)
    {
      var b := Next();
      octet := if b < 0 then 255 else b;
    }

    /** The mask, an octet at a time. */
    method ReadKey()
      modifies `incoming, `iRxMaskKey
      ensures iRxMaskKey == KeyFrom(old(incoming)) && incoming == Skip(old(incoming), 4)
    {
      ghost var bs := incoming;
      assert Skip(bs, 0) == bs && KeyFrom(bs)[..0] == [] && KeyFrom(bs)[..4] == KeyFrom(bs);
      hide *;
      var key: seq<byte> := [];
      for i := 0 to 4
        invariant key == KeyFrom(bs)[..i] && incoming == Skip(bs, i)
        modifies `incoming
      {
        SkipNext(bs, i);
        KeyNext(bs, i);
        var octet := NextOctet();
        key := key + [octet];
      }
      iRxMaskKey := key;
    }

    /** The client has read this header, and nothing behind it. */
    ghost predicate Loaded(h: Header)
      reads `iRxSize, `iRxMasked, `iRxMaskIndex, `iRxMaskKey
    {
      iRxSize == h.size && iRxMasked == h.masked && iRxMaskIndex == 0 && (h.masked ==> iRxMaskKey == h.key)
    }

    /** Reads a frame header of which at least two octets have arrived. */
    method ReadFrameHeader()
      requires Valid() && |incoming| >= 2
      modifies `incoming, `iRxOpCode, `iRxSize, `iRxMasked, `iRxMaskIndex, `iRxMaskKey
      ensures var h := TakenHeader(old(incoming));
        && Valid() && Loaded(h) && iRxOpCode == NextOpcode(old(iRxOpCode), h.opcode)
        && incoming == old(incoming)[h.length..]
    {
      ghost var bs := incoming;
      SizeBound(bs);
      hide SizeFrom, KeyFrom;
      var opcode := Next();
      var length := Next();
      if opcode % 16 == 0 {
        iRxOpCode := Or(iRxOpCode, opcode);
      } else {
        iRxOpCode := opcode;
      }
      iRxMasked := length >= 128;
      ReadLength(length % 128, bs);
      if iRxMasked {
        ReadKey();
      }
      iRxMaskIndex := 0;
    }

    predicate ControlMessage()
      reads `iRxOpCode
    {
      MessageType() == TYPE_CONNECTION_CLOSE || MessageType() == TYPE_PING || MessageType() == TYPE_PONG
    }

    /** What `parseMessage` does once it has read the header `h` of `rest` and knows the kind of the message. */
    method HandleControl(key: seq<byte>, ghost rest: seq<byte>, ghost h: Header)
      requires Valid() && |key| == 4 && Loaded(h) && h.length <= |rest| && incoming == rest[h.length..]
      requires ControlMessage() ==> h.length + Pending(h.size) <= |rest|
      requires MessageType() == TYPE_PING ==> |ReplyStart()| + Pending(h.size) <= iTxBuffer.Length
      modifies `incoming, `iRxSize, `iRxMaskIndex, `iTxStarted, `iTxMessageType, `iTxSize, `sent, `connected, iTxBuffer
      ensures Valid()
      ensures connected <==> old(connected) && MessageType() != TYPE_CONNECTION_CLOSE
      ensures ControlMessage() ==> iRxSize == 0 && incoming == rest[h.length + Pending(h.size)..]
      ensures MessageType() != TYPE_PING ==>
        sent == old(sent) && iTxStarted == old(iTxStarted) && Message() == old(Message())
      ensures MessageType() == TYPE_PING ==>
        && !iTxStarted && |iRxMaskKey| == 4 && (h.masked ==> |h.key| == 4)
        && Replied(old(sent), old(ReplyType()), old(ReplyStart()),
                   Payload(h, rest[h.length..h.length + Pending(h.size)]), key)
      ensures !ControlMessage() ==> Loaded(h) && incoming == rest[h.length..]
    {
      hide Pending, Replied, Payload, Plain;
      if ControlMessage() {
        Slices(rest, h.length, Pending(h.size));
      }
      if MessageType() == TYPE_CONNECTION_CLOSE {
        FlushRx();
        connected := false;
        iRxSize := 0;
      } else if MessageType() == TYPE_PING {
        PlainIsPayload(h, incoming[..Pending(h.size)], iRxMaskKey);
        Pong(key);
        iRxSize := 0;
      } else if MessageType() == TYPE_PONG {
        FlushRx();
        iRxSize := 0;
      }
    }

    /**
     What is asked of the socket before a message is parsed: the payload of a control frame has arrived, and that of a
     ping fits the transmit buffer.
     */
    ghost predicate CanParse(rest: seq<byte>)
      requires Valid()
      reads this, iTxBuffer
    {
      |rest| >= 2 ==>
        && var h := TakenHeader(rest); var kind := Kind(NextOpcode(iRxOpCode, h.opcode));
           && (kind == TYPE_CONNECTION_CLOSE || kind == TYPE_PING || kind == TYPE_PONG ==>
                 h.length + Pending(h.size) <= |rest|)
           && (kind == TYPE_PING ==> |ReplyStart()| + Pending(h.size) <= iTxBuffer.Length)
    }

    /** A message of which at least two octets have arrived. */
    method ParseArrived(key: seq<byte>)
      requires Valid() && |key| == 4 && |incoming| >= 2 && CanParse(incoming)
      modifies this, iTxBuffer
      ensures Valid()
      ensures var (rest, h) := (old(incoming), TakenHeader(old(incoming))); var n := Pending(h.size);
        && iRxOpCode == NextOpcode(old(iRxOpCode), h.opcode)
        && (connected <==> old(connected) && MessageType() != TYPE_CONNECTION_CLOSE)
        && (ControlMessage() ==> h.length + n <= |rest| && iRxSize == 0 && incoming == rest[h.length + n..])
        && (MessageType() != TYPE_PING ==>
              sent == old(sent) && iTxStarted == old(iTxStarted) && Message() == old(Message()))
        && (MessageType() == TYPE_PING ==>
              && !iTxStarted
              && Replied(old(sent), old(ReplyType()), old(ReplyStart()), Payload(h, rest[h.length..h.length + n]), key))
        && (!ControlMessage() ==> Loaded(h) && incoming == rest[h.length..])
    {
      ghost var rest, h := incoming, TakenHeader(incoming);
      hide TakenHeader, Payload, Replied, NextOpcode, Kind, Pending, Loaded;
      ReadFrameHeader();
      HandleControl(key, rest, h);
    }

    /**
     Goes on to the next message. A data message is left to be read; control messages are dealt with: a close ends the
     connection, a ping is answered with its payload, a pong is passed over.
     */
    method ParseMessage(key: seq<byte>) returns (size: int)
      requires Valid() && |key| == 4 && Pending(iRxSize) <= |incoming| && CanParse(incoming[Pending(iRxSize)..])
      modifies this, iTxBuffer
      ensures Valid()
      ensures |old(incoming[Pending(iRxSize)..])| < 2 ==>
        && size == 0 && incoming == old(incoming[Pending(iRxSize)..]) && iRxOpCode == old(iRxOpCode)
        && sent == old(sent) && connected == old(connected)
      ensures |old(incoming[Pending(iRxSize)..])| >= 2 ==>
        var rest := old(incoming[Pending(iRxSize)..]); var h := TakenHeader(rest); var n := Pending(h.size);
        && size == AsInt(iRxSize) && iRxOpCode == NextOpcode(old(iRxOpCode), h.opcode)
        && (connected <==> old(connected) && MessageType() != TYPE_CONNECTION_CLOSE)
        && (ControlMessage() ==> h.length + n <= |rest| && iRxSize == 0 && incoming == rest[h.length + n..])
        && (MessageType() != TYPE_PING ==>
              sent == old(sent) && iTxStarted == old(iTxStarted) && Message() == old(Message()))
        && (MessageType() == TYPE_PING ==>
              && !iTxStarted
              && Replied(old(sent), old(ReplyType()), old(ReplyStart()), Payload(h, rest[h.length..h.length + n]), key))
        && (!ControlMessage() ==> Loaded(h) && incoming == rest[h.length..])
    {
      hide TakenHeader, Payload, Replied, NextOpcode, Kind, Pending, AsInt, Loaded;
      FlushRx();
      if |incoming| < 2 {
        return 0;
      }
      ParseArrived(key);
      size := AsInt(iRxSize);
    }
  }

  lemma SizeBound(bs: seq<byte>)
    requires |bs| >= 2
    ensures TakenHeader(bs).size <= ALL_ONES
  {
    var at := LengthEnd(bs);
    if at != 2 && at <= |bs| {
      FromBigEndianBound(bs[2..][..at - 2]);
      Sizes();
    }
  }

  lemma Slices(s: seq<byte>, a: nat, b: nat)
    requires a + b <= |s|
    ensures s[a..][..b] == s[a..a + b] && s[a..][b..] == s[a + b..]
  {
  }

  lemma PlainIsPayload(h: Header, data: seq<byte>, key: seq<byte>)
    requires |key| == 4 && (h.masked ==> h.key == key)
    ensures Plain(data, h.masked, key, 0) == Payload(h, data)
  {
  }

  lemma TwoBytes(n: nat)
    ensures BigEndian(n, 2) == [n / 0x100 % 256, n % 256]
  {
    assert BigEndian(n / 256, 1) == BigEndian(n / 256 / 256, 0) + [n / 256 % 256];
  }

  /** n without its k low bytes. */
  function DropBytes(n: nat, k: nat): nat {
    if k == 0 then n else DropBytes(n / 256, k - 1)
  }

  /** The low k bytes end the low j + k bytes. */
  lemma {:induction false} BigEndianSplit(n: nat, j: nat, k: nat)
    ensures BigEndian(n, j + k) == BigEndian(DropBytes(n, k), j) + BigEndian(n, k)
  {
    if k > 0 {
      BigEndianSplit(n / 256, j, k - 1);
    }
  }

  lemma DropTwo(n: nat)
    ensures DropBytes(n, 2) == n / 0x1_0000
  {
    assert DropBytes(n / 256, 1) == DropBytes(n / 256 / 256, 0);
    DivDiv(n, 256, 256);
  }

  lemma DropFour(n: nat)
    ensures DropBytes(n, 4) == n / 0x1_0000_0000
  {
    assert DropBytes(n, 4) == DropBytes(n / 256, 3) == DropBytes(n / 256 / 256, 2);
    DropTwo(n / 256 / 256);
    DivDiv(n, 256, 256);
    DivDiv(n, 0x1_0000, 0x1_0000);
  }

  lemma FourBytes(n: nat)
    ensures BigEndian(n, 4) == [n / 0x100_0000 % 256, n / 0x1_0000 % 256, n / 0x100 % 256, n % 256]
  {
    Sizes();
    BigEndianSplit(n, 2, 2);
    DropTwo(n);
    TwoBytes(n);
    TwoBytes(n / 0x1_0000);
    DivDiv(n, 0x1_0000, 0x100);
  }

  lemma EightBytes(n: nat)
    ensures BigEndian(n, 8) == [n / 0x100_0000_0000_0000 % 256, n / 0x1_0000_0000_0000 % 256,
                                n / 0x100_0000_0000 % 256, n / 0x1_0000_0000 % 256,
                                n / 0x100_0000 % 256, n / 0x1_0000 % 256, n / 0x100 % 256, n % 256]
  {
    Sizes();
    var high := n / 0x1_0000_0000;
    BigEndianSplit(n, 4, 4);
    DropFour(n);
    FourBytes(n);
    FourBytes(high);
    DivDiv(n, 0x1_0000_0000, 0x100);
    DivDiv(n, 0x1_0000_0000, 0x1_0000);
    DivDiv(n, 0x1_0000_0000, 0x100_0000);
  }

  /** What a receiver makes of a data frame at the beginning of what it holds. */
  lemma FrameTaken(kept: byte, kind: byte, payload: seq<byte>, key: seq<byte>, more: seq<byte>)
    requires 0 < kind < 8 && |key| == 4 && |payload| < WRAP
    ensures |payload| < Pow256(8)
    ensures var bs := Frame(kind, payload, key) + more;
      && |bs| >= 2 && var h := TakenHeader(bs);
         && h.masked && h.key == key && h.size == |payload| && bs[h.length..] == Masked(payload, key, 0) + more
         && NextOpcode(kept, h.opcode) == 0x80 + kind
  {
    Sizes();
    FrameParses(kind, payload, key, more);
    WholeHeader(Frame(kind, payload, key) + more);
  }

  /** The first `done` bytes of a masked message, of which everything has arrived, have been read; `more` follows it. */
  ghost predicate ReadUpTo(receiver: WebSocketClient, payload: seq<byte>, key: seq<byte>, more: seq<byte>, done: nat)
    reads receiver
  {
    && receiver.Valid() && |key| == 4 && done <= |payload|
    && receiver.iRxMasked && receiver.iRxMaskKey == key && receiver.iRxMaskIndex == done
    && receiver.iRxSize == |payload| - done && receiver.incoming == (Masked(payload, key, 0) + more)[done..]
  }

  /** Reads the next part of it. */
  method ReadPart(receiver: WebSocketClient, ghost payload: seq<byte>, ghost key: seq<byte>, ghost more: seq<byte>,
                  ghost done: nat, size: nat)
    returns (part: seq<byte>)
    requires ReadUpTo(receiver, payload, key, more, done) && done + size <= |payload|
    modifies receiver`incoming, receiver`iRxSize, receiver`iRxMaskIndex
    ensures ReadUpTo(receiver, payload, key, more, done + size) && part == payload[done..done + size]
  {
    ghost var m := Masked(payload, key, 0);
    CutOne(m, more, done, done + size);
    UnmaskPart(payload, key, 0, done, done + size);
    hide Masked;
    var buffer := new byte[size];
    var n := receiver.Read(buffer, size);
    part := buffer[..n];
  }

  /** Reads all of it, in parts of the given sizes. */
  method ReadAll(receiver: WebSocketClient, ghost payload: seq<byte>, ghost key: seq<byte>, ghost more: seq<byte>,
                 cuts: seq<nat>)
    returns (got: seq<byte>)
    requires ReadUpTo(receiver, payload, key, more, 0) && Sum(cuts) == |payload|
    modifies receiver`incoming, receiver`iRxSize, receiver`iRxMaskIndex
    ensures ReadUpTo(receiver, payload, key, more, |payload|) && got == payload
  {
    got := [];
    assert cuts[0..] == cuts;
    hide ReadUpTo;
    for i := 0 to |cuts|
      invariant ReadUpTo(receiver, payload, key, more, |got|)
      invariant |got| + Sum(cuts[i..]) == |payload| && got == payload[..|got|]
    {
      assert cuts[i..][1..] == cuts[i + 1..];
      var part := ReadPart(receiver, payload, key, more, |got|, cuts[i]);
      got := got + part;
    }
    assert cuts[|cuts|..] == [];
  }

  /** A message from beginning to end. */
  method Post(sender: WebSocketClient, kind: byte, payload: seq<byte>, key: seq<byte>)
    requires sender.Valid() && kind < 16 && |key| == 4 && !sender.iTxStarted && |payload| <= sender.iTxBuffer.Length
    modifies sender, sender.iTxBuffer
    ensures sender.Valid() && !sender.iTxStarted && |payload| < Pow256(8)
    ensures sender.sent == old(sender.sent) + Frame(kind, payload, key)
  {
    hide Frame, Masked, Pow256;
    assert [] + payload == payload && payload[..|payload|] == payload;
    var failed := sender.BeginMessage(kind);
    assert sender.iTxSize == |sender.Message()| == 0;
    var n := sender.Write(payload);
    assert sender.Message() == payload;
    failed := sender.EndMessage(key);
  }

  /** Goes on to a data message that has arrived. */
  method Take(receiver: WebSocketClient, ghost kind: byte, ghost payload: seq<byte>, ghost key: seq<byte>,
              ghost more: seq<byte>, replyKey: seq<byte>)
    returns (size: int)
    requires receiver.Valid() && 0 < kind < 8 && |key| == |replyKey| == 4 && receiver.iRxSize == 0
    requires |payload| < WRAP / 2 && |payload| < Pow256(8) && receiver.incoming == Frame(kind, payload, key) + more
    modifies receiver, receiver.iTxBuffer
    ensures size == |payload| && receiver.iRxOpCode == 0x80 + kind && ReadUpTo(receiver, payload, key, more, 0)
  {
    ghost var bs := Frame(kind, payload, key) + more;
    FrameTaken(receiver.iRxOpCode, kind, payload, key, more);
    assert bs[0..] == bs;
    hide Frame, TakenHeader, Masked, NextOpcode, WebSocketClient.Replied;
    size := receiver.ParseMessage(replyKey);
    assert (Masked(payload, key, 0) + more)[0..] == Masked(payload, key, 0) + more;
  }

  /**
   Main result on the objects: for every data type, payload, key and cuts, and whatever follows, what one client sends
   as a message another client reads back, part by part, from what has arrived.
   */
  method Deliver(sender: WebSocketClient, receiver: WebSocketClient, kind: byte, payload: seq<byte>, key: seq<byte>,
                 replyKey: seq<byte>, more: seq<byte>, cuts: seq<nat>)
    returns (size: int, got: seq<byte>)
    requires sender != receiver && sender.iTxBuffer != receiver.iTxBuffer && sender.Valid() && receiver.Valid()
    requires 0 < kind < 8 && |key| == |replyKey| == 4 && !sender.iTxStarted && |payload| <= sender.iTxBuffer.Length
    requires receiver.incoming == [] && receiver.iRxSize == 0 && Sum(cuts) == |payload|
    modifies sender, sender.iTxBuffer, receiver, receiver.iTxBuffer
    ensures sender.Valid() && receiver.Valid() && !sender.iTxStarted
    ensures size == |payload| && got == payload && receiver.iRxSize == 0 && receiver.incoming == more
    ensures receiver.MessageType() == kind && Final(receiver.iRxOpCode)
  {
    hide Frame, Masked;
    var before := |sender.sent|;
    Post(sender, kind, payload, key);
    receiver.incoming := sender.sent[before..] + more;
    assert sender.sent[before..] == Frame(kind, payload, key);
    size := Take(receiver, kind, payload, key, more, replyKey);
    got := ReadAll(receiver, payload, key, more, cuts);
    assert (Masked(payload, key, 0) + more)[|payload|..] == more;
  }
}
