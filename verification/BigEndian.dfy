/** Fixed-width big-endian integers and ASCII literals as byte strings. */
module BigEndian {
  import opened Words

  function Pow256(width: nat): nat {
    if width == 0 then 1 else 256 * Pow256(width - 1)
  }

  lemma Pow256Values()
    ensures Pow256(2) == U16_MAX + 1
    ensures Pow256(4) == U32_MAX + 1
    ensures Pow256(8) == U64_MAX + 1
  {
    assert Pow256(1) == 256 && Pow256(3) == 0x100_0000;
    assert Pow256(5) == 0x100_0000_0000 && Pow256(6) == 0x1_0000_0000_0000 && Pow256(7) == 0x100_0000_0000_0000;
  }

  /** The `width` bytes of `n`, most significant first. */
  function Encode(n: nat, width: nat): (r: Text)
    ensures |r| == width
  {
    if width == 0 then [] else Encode(n / 256, width - 1) + [n % 256]
  }

  function Decode(s: Text): nat {
    if s == [] then 0 else 256 * Decode(s[..|s| - 1]) + s[|s| - 1]
  }

  lemma {:induction false} DecodeBound(s: Text)
    ensures Decode(s) < Pow256(|s|)
  {
    if s != [] {
      DecodeBound(s[..|s| - 1]);
    }
  }

  lemma {:induction false} DecodeEncode(n: nat, width: nat)
    requires n < Pow256(width)
    ensures Decode(Encode(n, width)) == n
  {
    if width > 0 {
      DecodeEncode(n / 256, width - 1);
      assert Encode(n, width)[..width - 1] == Encode(n / 256, width - 1);
    }
  }

  lemma {:induction false} EncodeDecode(s: Text)
    ensures Encode(Decode(s), |s|) == s
  {
    if s != [] {
      EncodeDecode(s[..|s| - 1]);
      assert s == s[..|s| - 1] + [s[|s| - 1]];
    }
  }

  lemma EncodeInjective(m: nat, n: nat, width: nat)
    requires m < Pow256(width) && n < Pow256(width) && Encode(m, width) == Encode(n, width)
    ensures m == n
  {
    DecodeEncode(m, width);
    DecodeEncode(n, width);
  }

  function Be16(n: u16): (r: Text)
    ensures |r| == 2
  {
    Encode(n, 2)
  }

  function Be32(n: u32): (r: Text)
    ensures |r| == 4
  {
    Encode(n, 4)
  }

  function Be64(n: u64): (r: Text)
    ensures |r| == 8
  {
    Encode(n, 8)
  }

  /** The most significant byte comes first. */
  lemma Be16Bytes(n: u16)
    ensures Be16(n) == [n / 0x100, n % 0x100]
  {
    EncodeTwo(n);
  }

  lemma Be32Bytes(n: u32)
    ensures Be32(n) == Be16(n / 0x1_0000) + Be16(n % 0x1_0000)
  {
    hide Encode;
    Pow256Values();
    var high, low := n / 0x1_0000, n % 0x1_0000;
    EncodeJoined(high, low, 2, 2);
    assert n == high * Pow256(2) + low;
  }

  lemma Be64Bytes(n: u64)
    ensures Be64(n) == Be32(n / 0x1_0000_0000) + Be32(n % 0x1_0000_0000)
  {
    hide Encode;
    Pow256Values();
    var high, low := n / 0x1_0000_0000, n % 0x1_0000_0000;
    EncodeJoined(high, low, 4, 4);
    assert n == high * Pow256(4) + low;
  }

  lemma EncodeTwo(n: nat)
    ensures Encode(n, 2) == [n / 0x100 % 0x100, n % 0x100]
  {
    assert Encode(n / 0x100, 1) == Encode(n / 0x100 / 0x100, 0) + [n / 0x100 % 0x100];
  }

  /** The bytes of a number are those of its high part followed by those of its low part. */
  lemma {:induction false} EncodeJoined(high: nat, low: nat, v: nat, w: nat)
    requires low < Pow256(w)
    ensures Encode(high * Pow256(w) + low, v + w) == Encode(high, v) + Encode(low, w)
  {
    if w > 0 {
      var q := Pow256(w - 1);
      assert Pow256(w) == 256 * q;
      hide Pow256, Encode;
      EncodeJoined(high, low / 256, v, w - 1);
      Scaled(high, q);
      JoinLastByte(high * q, low, high, v, w);
    }
  }

  lemma Scaled(n: nat, q: nat)
    ensures n * (256 * q) == 256 * (n * q)
  {
  }

  lemma JoinLastByte(rest: nat, low: nat, high: nat, v: nat, w: nat)
    requires w > 0 && Encode(rest + low / 256, v + w - 1) == Encode(high, v) + Encode(low / 256, w - 1)
    ensures Encode(256 * rest + low, v + w) == Encode(high, v) + Encode(low, w)
  {
    assert (256 * rest + low) / 256 == rest + low / 256 && (256 * rest + low) % 256 == low % 256;
  }

  lemma BeInjective()
    ensures forall m: u16, n: u16 :: Be16(m) == Be16(n) ==> m == n
    ensures forall m: u32, n: u32 :: Be32(m) == Be32(n) ==> m == n
    ensures forall m: u64, n: u64 :: Be64(m) == Be64(n) ==> m == n
  {
    Pow256Values();
    forall m: u16, n: u16 | Be16(m) == Be16(n) ensures m == n {
      EncodeInjective(m, n, 2);
    }
    forall m: u32, n: u32 | Be32(m) == Be32(n) ensures m == n {
      EncodeInjective(m, n, 4);
    }
    forall m: u64, n: u64 | Be64(m) == Be64(n) ensures m == n {
      EncodeInjective(m, n, 8);
    }
  }

  /** The bytes of an ASCII literal. */
  function Ascii(s: string): (r: Text)
    requires forall i :: 0 <= i < |s| ==> s[i] < 128 as char
    ensures |r| == |s|
  {
    seq(|s|, i requires 0 <= i < |s| => s[i] as int)
  }

  /** Two concatenations with equal first parts' lengths split alike. */
  lemma SplitEqual<T>(a: seq<T>, b: seq<T>, c: seq<T>, d: seq<T>)
    requires a + b == c + d && |a| == |c|
    ensures a == c && b == d
  {
    assert a == (a + b)[..|a|] && c == (c + d)[..|c|];
    assert b == (a + b)[|a|..] && d == (c + d)[|c|..];
  }

  lemma Associative<T>(a: seq<T>, b: seq<T>, c: seq<T>)
    ensures a + (b + c) == a + b + c
  {
  }
}
