/** Base 64 as section 4 of RFC 4648 defines it: 24 bits are three bytes and four letters. */
module Base64 {
  import opened Bytes

  const UPPER: string := "ABCDEFGHIJKLMNOPQRSTUVWXYZ"
  const LOWER: string := "abcdefghijklmnopqrstuvwxyz"
  const DIGITS: string := "0123456789"
  const DICTIONARY: string := UPPER + LOWER + DIGITS + "+/"

  type sextet = x: int | 0 <= x < 64

  function Letter(i: sextet): (c: char)
    ensures Value(c) == Some(i)
  {
    if i < 26 then 'A' + i as char
    else if i < 52 then 'a' + (i - 26) as char
    else if i < 62 then '0' + (i - 52) as char
    else if i == 62 then '+'
    else '/'
  }

  function Value(c: char): Option<sextet> {
    if 'A' <= c <= 'Z' then Some(c as int - 'A' as int)
    else if 'a' <= c <= 'z' then Some(c as int - 'a' as int + 26)
    else if '0' <= c <= '9' then Some(c as int - '0' as int + 52)
    else if c == '+' then Some(62)
    else if c == '/' then Some(63)
    else None
  }

  lemma UpperAt(i: nat)
    requires i < 26
    ensures UPPER[i] == 'A' + i as char
  {
  }

  lemma LowerAt(i: nat)
    requires i < 26
    ensures LOWER[i] == 'a' + i as char
  {
  }

  lemma DigitAt(i: nat)
    requires i < 10
    ensures DIGITS[i] == '0' + i as char
  {
  }

  /** The letter of every six bits is the one at that place in the table. */
  lemma DictionaryAt(i: sextet)
    ensures |DICTIONARY| == 64 && DICTIONARY[i] == Letter(i)
  {
    assert |UPPER| == 26 && |LOWER| == 26 && |DIGITS| == 10;
    hide UPPER, LOWER, DIGITS;
    if i < 26 {
      UpperAt(i);
    } else if i < 52 {
      LowerAt(i - 26);
    } else if i < 62 {
      DigitAt(i - 52);
    }
  }

  /** The table of section 4 of RFC 4648. */
  lemma Table()
    ensures DICTIONARY == "ABCDEFGHIJKLMNOPQRSTUVWXYZ" + "abcdefghijklmnopqrstuvwxyz" + "0123456789" + "+/"
  {
  }

  /** Four letters for one to three bytes. */
  function Group(s: seq<byte>): (t: string)
    requires 1 <= |s| <= 3
    ensures |t| == 4
  {
    if |s| == 3 then
      [Letter(s[0] / 4), Letter(s[0] % 4 * 16 + s[1] / 16), Letter(s[1] % 16 * 4 + s[2] / 64), Letter(s[2] % 64)]
    else if |s| == 2 then
      [Letter(s[0] / 4), Letter(s[0] % 4 * 16 + s[1] / 16), Letter(s[1] % 16 * 4), '=']
    else
      [Letter(s[0] / 4), Letter(s[0] % 4 * 16), '=', '=']
  }

  function Encode(s: seq<byte>): (t: string)
    ensures |t| == Length(|s|)
    decreases |s|
  {
    if s == [] then "" else if |s| <= 3 then Group(s) else Group(s[..3]) + Encode(s[3..])
  }

  function Length(n: nat): nat {
    (n + 2) / 3 * 4
  }

  /** Section 10 of RFC 4648: "f", "fo" and "foo". */
  lemma TestVectors()
    ensures Encode([0x66]) == "Zg==" && Encode([0x66, 0x6F]) == "Zm8=" && Encode([0x66, 0x6F, 0x6F]) == "Zm9v"
  {
  }

  // ---------------------------------------------------------------- decoding

  /** A full group is one number of 24 bits, a shorter one a number of 18 or 12 bits whose last 2 or 4 bits are zero. */
  function Ungroup(t: string): (s: Option<seq<byte>>)
    requires |t| == 4
    ensures s.Some? ==> 1 <= |s.value| <= 3
  {
    var a, b, c, d := Value(t[0]), Value(t[1]), Value(t[2]), Value(t[3]);
    if a.None? || b.None? then None
    else if t[2] == '=' && t[3] == '=' then
      var n := a.value * 64 + b.value;
      if n % 16 == 0 then Some([n / 16]) else None
    else if c.None? then None
    else if t[3] == '=' then
      var n := (a.value * 64 + b.value) * 64 + c.value;
      if n % 4 == 0 then Some([n / 4 / 256, n / 4 % 256]) else None
    else if d.None? then None
    else
      var n := ((a.value * 64 + b.value) * 64 + c.value) * 64 + d.value;
      Some([n / 65536, n / 256 % 256, n % 256])
  }

  /** Only the last group may be short. */
  function Decode(t: string): Option<seq<byte>>
    decreases |t|
  {
    if t == "" then Some([])
    else if |t| < 4 then None
    else
      var first := Ungroup(t[..4]);
      if first.None? then None
      else if |t| == 4 then first
      else if |first.value| < 3 then None
      else
        var rest := Decode(t[4..]);
        if rest.None? then None else Some(first.value + rest.value)
  }

  lemma Join3(x: byte, y: byte, z: byte)
    ensures ((x / 4 * 64 + (x % 4 * 16 + y / 16)) * 64 + (y % 16 * 4 + z / 64)) * 64 + z % 64 ==
      (x as int * 256 + y) * 256 + z
  {
  }

  lemma Join2(x: byte, y: byte)
    ensures (x / 4 * 64 + (x % 4 * 16 + y / 16)) * 64 + y % 16 * 4 == 4 * (x as int * 256 + y)
  {
  }

  lemma Bytes3(x: byte, y: byte, z: byte)
    ensures var n := (x as int * 256 + y) * 256 + z;
      n / 65536 == x && n / 256 % 256 == y && n % 256 == z
  {
  }

  lemma Bytes2(x: byte, y: byte)
    ensures var n := 4 * (x as int * 256 + y);
      n % 4 == 0 && n / 4 / 256 == x && n / 4 % 256 == y
  {
  }

  lemma PadIsNoLetter()
    ensures Value('=') == None
  {
  }

  lemma Ungroup3(x: byte, y: byte, z: byte)
    ensures Ungroup(Group([x, y, z])) == Some([x, y, z])
  {
    hide Letter, Value;
    PadIsNoLetter();
    Join3(x, y, z);
    Bytes3(x, y, z);
  }

  lemma Ungroup2(x: byte, y: byte)
    ensures Ungroup(Group([x, y])) == Some([x, y])
  {
    hide Letter, Value;
    PadIsNoLetter();
    Join2(x, y);
    Bytes2(x, y);
  }

  lemma UngroupGroup(s: seq<byte>)
    requires 1 <= |s| <= 3
    ensures Ungroup(Group(s)) == Some(s)
  {
    if |s| == 3 {
      assert s == [s[0], s[1], s[2]];
      Ungroup3(s[0], s[1], s[2]);
    } else if |s| == 2 {
      assert s == [s[0], s[1]];
      Ungroup2(s[0], s[1]);
    } else {
      hide Letter, Value;
      PadIsNoLetter();
      assert s == [s[0]];
    }
  }

  lemma LetterOfValue(c: char)
    ensures Value(c).Some? ==> Letter(Value(c).value) == c && c != '='
  {
  }

  lemma GroupUngroupOne(t: string)
    requires |t| == 4 && Ungroup(t).Some? && |Ungroup(t).value| == 1
    ensures Group(Ungroup(t).value) == t
  {
    LetterOfValue(t[0]);
    LetterOfValue(t[1]);
    hide Letter, Value;
    assert t == [t[0], t[1], '=', '='];
  }

  lemma GroupUngroupTwo(t: string)
    requires |t| == 4 && Ungroup(t).Some? && |Ungroup(t).value| == 2
    ensures Group(Ungroup(t).value) == t
  {
    LetterOfValue(t[0]);
    LetterOfValue(t[1]);
    LetterOfValue(t[2]);
    hide Letter, Value;
    Split2(Value(t[0]).value, Value(t[1]).value, Value(t[2]).value);
    assert t == [t[0], t[1], t[2], '='];
  }

  lemma GroupUngroupFull(t: string)
    requires |t| == 4 && Ungroup(t).Some? && |Ungroup(t).value| == 3
    ensures Group(Ungroup(t).value) == t
  {
    LetterOfValue(t[0]);
    LetterOfValue(t[1]);
    LetterOfValue(t[2]);
    LetterOfValue(t[3]);
    hide Letter, Value;
    Split3(Value(t[0]).value, Value(t[1]).value, Value(t[2]).value, Value(t[3]).value);
    assert t == [t[0], t[1], t[2], t[3]];
  }

  lemma Split2(a: sextet, b: sextet, c: sextet)
    requires ((a * 64 + b) * 64 + c) % 4 == 0
    ensures var n := (a * 64 + b) * 64 + c;
      var (x, y) := (n / 4 / 256, n / 4 % 256);
      x / 4 == a && x % 4 * 16 + y / 16 == b && y % 16 * 4 == c
  {
    var n := (a * 64 + b) * 64 + c;
    assert n / 4 == a * 1024 + b * 16 + c / 4;
    assert n / 4 / 256 == a * 4 + b / 16;
    assert n / 4 % 256 == b % 16 * 16 + c / 4;
  }

  lemma Split3(a: sextet, b: sextet, c: sextet, d: sextet)
    ensures var n := ((a * 64 + b) * 64 + c) * 64 + d;
      var (x, y, z) := (n / 65536, n / 256 % 256, n % 256);
      x / 4 == a && x % 4 * 16 + y / 16 == b && y % 16 * 4 + z / 64 == c && z % 64 == d
  {
    var (b1, b0, c1, c0) := (b / 16, b % 16, c / 4, c % 4);
    var x: byte, y: byte, z: byte := a * 4 + b1, b0 * 16 + c1, c0 * 64 + d;
    assert ((a * 64 + b) * 64 + c) * 64 + d == (x as int * 256 + y) * 256 + z;
    Bytes3(x, y, z);
    Places(a, b1, 4);
    Places(b0, c1, 16);
    Places(c0, d, 64);
  }

  lemma Places(high: nat, low: nat, unit: nat)
    requires unit in {4, 16, 64} && low < unit
    ensures (high * unit + low) / unit == high && (high * unit + low) % unit == low
  {
  }

  /** Main result: every byte string comes back. */
  lemma {:induction false} DecodeEncode(s: seq<byte>)
    ensures Decode(Encode(s)) == Some(s)
    decreases |s|
  {
    if s != [] {
      var head := if |s| <= 3 then s else s[..3];
      UngroupGroup(head);
      hide Group, Ungroup;
      var t := Encode(s);
      assert t[..4] == Group(head);
      if |s| > 3 {
        DecodeEncode(s[3..]);
        assert t[4..] == Encode(s[3..]);
        assert head + s[3..] == s;
      }
    }
  }

  /** And every text that decodes is the encoding of what it decodes to: there is one text for each byte string. */
  lemma {:induction false} EncodeDecode(t: string)
    ensures Decode(t).Some? ==> Encode(Decode(t).value) == t
    decreases |t|
  {
    if Decode(t).Some? && t != "" {
      if |Ungroup(t[..4]).value| == 1 {
        GroupUngroupOne(t[..4]);
      } else if |Ungroup(t[..4]).value| == 2 {
        GroupUngroupTwo(t[..4]);
      } else {
        GroupUngroupFull(t[..4]);
      }
      hide Group, Ungroup;
      assert t == t[..4] + t[4..];
      if |t| > 4 {
        EncodeDecode(t[4..]);
        var first, rest := Ungroup(t[..4]).value, Decode(t[4..]).value;
        assert |first| == 3;
        assert (first + rest)[..3] == first && (first + rest)[3..] == rest;
        assert rest != [];
      }
    }
  }

  lemma Injective(a: seq<byte>, b: seq<byte>)
    ensures Encode(a) == Encode(b) <==> a == b
  {
    DecodeEncode(a);
    DecodeEncode(b);
  }

  /** Whole groups of three may be encoded on their own. */
  lemma {:induction false} EncodeConcat(a: seq<byte>, b: seq<byte>)
    requires |a| % 3 == 0
    ensures Encode(a + b) == Encode(a) + Encode(b)
    decreases |a|
  {
    hide Group;
    if a == [] {
      assert a + b == b;
    } else {
      assert |a| >= 3;
      assert (a + b)[..3] == a[..3] && (a + b)[3..] == a[3..] + b;
      EncodeConcat(a[3..], b);
      if |a| == 3 {
        assert a[3..] == [] && a[..3] == a;
        assert a[3..] + b == b;
        if b == [] {
          assert a + b == a;
        }
      }
    }
  }
}
