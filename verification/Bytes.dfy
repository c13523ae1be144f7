/** Bytes, fixed-width words and byte strings shared by the decoders. */
module Bytes {

  type byte = x: int | 0 <= x < 256
  type uint16 = x: int | 0 <= x < 0x1_0000
  type uint32 = x: int | 0 <= x < 0x1_0000_0000

  datatype Option<+T> = None | Some(value: T)

  /** The two bytes of a 16-bit word, most significant first. */
  function Be16(n: uint16): (b: seq<byte>)
    ensures |b| == 2
  {
    [n / 256, n % 256]
  }

  /** The four bytes of a 32-bit word, most significant first. */
  function Be32(n: uint32): (b: seq<byte>)
    ensures |b| == 4
  {
    [n / 0x100_0000, n / 0x1_0000 % 256, n / 256 % 256, n % 256]
  }

  lemma ReadsBackBe16(n: uint16)
    ensures ReadBe16(Be16(n)[0], Be16(n)[1]) == n
  {
  }

  lemma ReadsBackBe32(n: uint32)
    ensures var b := Be32(n); ReadBe32(b[0], b[1], b[2], b[3]) == n
  {
    assert n / 256 / 256 == n / 0x1_0000 && n / 0x1_0000 / 256 == n / 0x100_0000;
  }

  function ReadBe16(hi: byte, lo: byte): uint16 {
    hi * 256 + lo
  }

  function ReadLe24(a: byte, b: byte, c: byte): nat {
    a + b * 256 + c * 0x1_0000
  }

  function ReadBe32(a: byte, b: byte, c: byte, d: byte): uint32 {
    a * 0x100_0000 + b * 0x1_0000 + c * 256 + d
  }

  /** The last byte of a number taken off. */
  lemma TakesOff(q: int, d: int)
    requires 0 <= d < 256
    ensures (q * 256 + d) / 256 == q && (q * 256 + d) % 256 == d
  {
  }

  lemma TopByte(a: int, b: int, c: int, d: int)
    requires 0 <= b < 256 && 0 <= c < 256 && 0 <= d < 256
    ensures (a * 0x100_0000 + b * 0x1_0000 + c * 256 + d) / 0x100_0000 == a
  {
  }

  lemma SecondByte(a: int, b: int, c: int, d: int)
    requires 0 <= b < 256 && 0 <= c < 256 && 0 <= d < 256
    ensures (a * 0x100_0000 + b * 0x1_0000 + c * 256 + d) / 0x1_0000 % 256 == b
  {
    var q, n := a * 256 + b, a * 0x100_0000 + b * 0x1_0000 + c * 256 + d;
    assert n / 0x1_0000 == q by {
      assert n == q * 0x1_0000 + (c * 256 + d);
    }
    TakesOff(a, b);
  }

  lemma LowBytes(a: int, b: int, c: int, d: int)
    requires 0 <= b < 256 && 0 <= c < 256 && 0 <= d < 256
    ensures (a * 0x100_0000 + b * 0x1_0000 + c * 256 + d) / 256 % 256 == c
    ensures (a * 0x100_0000 + b * 0x1_0000 + c * 256 + d) % 256 == d
  {
    var p, q, n := a * 256 + b, a * 0x1_0000 + b * 256 + c, a * 0x100_0000 + b * 0x1_0000 + c * 256 + d;
    assert q == p * 256 + c && n == q * 256 + d;
    assert n / 256 == q && n % 256 == d by { TakesOff(q, d); }
    assert q % 256 == c by { TakesOff(p, c); }
  }

  lemma WritesBackBe32(a: byte, b: byte, c: byte, d: byte)
    ensures Be32(ReadBe32(a, b, c, d)) == [a, b, c, d]
  {
    var w: int, x: int, y: int, z: int := a, b, c, d;
    TopByte(w, x, y, z);
    SecondByte(w, x, y, z);
    LowBytes(w, x, y, z);
  }

  /** Four bytes are a word exactly when they read as that word. */
  lemma WordBytes(a: byte, b: byte, c: byte, d: byte, word: seq<byte>, n: uint32)
    requires word == [a, b, c, d]
    ensures word == Be32(n) <==> ReadBe32(a, b, c, d) == n
  {
    WritesBackBe32(a, b, c, d);
    ReadsBackBe32(n);
    hide Be32, ReadBe32;
    if word == Be32(n) {
      var w := Be32(n);
      assert w[0] == a && w[1] == b && w[2] == c && w[3] == d;
    }
  }

  /** The concatenation of a list of lists. */
  function Flatten<T>(parts: seq<seq<T>>): seq<T> {
    if parts == [] then [] else parts[0] + Flatten(parts[1..])
  }

  /** Slices of what is left from some position on. */
  lemma SlicesOfRest<T>(s: seq<T>, from: nat, n: nat)
    requires from + n <= |s|
    ensures s[from..][..n] == s[from..from + n] && s[from..][n..] == s[from + n..]
  {
  }

  lemma ConcatAssoc<T>(a: seq<T>, b: seq<T>, c: seq<T>, d: seq<T>)
    ensures a + (b + c + d) == a + b + c + d
    ensures a + (b + c) == a + b + c
  {
  }

  lemma {:induction false} FlattenConcat<T>(a: seq<seq<T>>, b: seq<seq<T>>)
    ensures Flatten(a + b) == Flatten(a) + Flatten(b)
  {
    if a == [] {
      assert a + b == b;
    } else {
      assert (a + b)[0] == a[0] && (a + b)[1..] == a[1..] + b;
      FlattenConcat(a[1..], b);
    }
  }
}

/** Integers and bit vectors of one byte. */
module Octets {

  lemma ConvertsBack(b: int)
    requires 0 <= b < 256
    ensures (b as bv8) as int == b
  {
    // sixteen cases, by the upper four bits
    if b < 16 {
    } else if b < 32 {
    } else if b < 48 {
    } else if b < 64 {
    } else if b < 80 {
    } else if b < 96 {
    } else if b < 112 {
    } else if b < 128 {
    } else if b < 144 {
    } else if b < 160 {
    } else if b < 176 {
    } else if b < 192 {
    } else if b < 208 {
    } else if b < 224 {
    } else if b < 240 {
    }
  }
}
