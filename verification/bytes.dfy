/** Fixed-width integers and their little/big-endian byte encodings, as Rust's
    `to_le_bytes`, `to_be_bytes`, `from_le_bytes` and `as` casts produce them. */
module Bytes {

  /** A Rust `u8`: the element type of every USB transfer. */
  type Byte = b: int | 0 <= b < 0x100

  type Bytes = seq<Byte>

  /** A Rust `i8`: opcode buffers and enum discriminants are signed bytes. */
  type I8 = x: int | -0x80 <= x < 0x80

  type U16 = x: int | 0 <= x < 0x1_0000

  type U32 = x: int | 0 <= x < 0x1_0000_0000

  type I32 = x: int | -0x8000_0000 <= x < 0x8000_0000

  /** `x as u8` for an `i8`: two's complement reinterpretation. */
  function AsU8(x: I8): (b: Byte)
    ensures x >= 0 ==> b == x
    ensures x < 0 ==> b >= 0x80
  {
    if x < 0 then x + 0x100 else x
  }

  /** `b as i8` for a `u8`. */
  function AsI8(b: Byte): (x: I8)
    ensures AsU8(x) == b
  {
    if b >= 0x80 then b - 0x100 else b
  }

  lemma AsI8AsU8(x: I8)
    ensures AsI8(AsU8(x)) == x
  {
  }

  /** The 32-bit pattern of an `i32` (what `to_le_bytes`/`to_be_bytes` write). */
  function BitsOfI32(x: I32): (n: U32)
    ensures I32OfBits(n) == x
  {
    if x < 0 then x + 0x1_0000_0000 else x
  }

  /** The `i32` whose bit pattern is `n`. */
  function I32OfBits(n: U32): I32
  {
    if n >= 0x8000_0000 then n - 0x1_0000_0000 else n
  }

  /** `n as u32` for a `usize`: truncation to the low 32 bits. */
  function WrapU32(n: nat): (r: U32)
    ensures n < 0x1_0000_0000 ==> r == n
  {
    n % 0x1_0000_0000
  }

  /** `n as i32` for a `usize`: truncation to the low 32 bits, read as signed. */
  function WrapI32(n: nat): (r: I32)
    ensures BitsOfI32(r) == n % 0x1_0000_0000
  {
    I32OfBits(n % 0x1_0000_0000)
  }

  function FromLeU16(s: Bytes): (n: U16)
    requires |s| == 2
  {
    s[0] as int + 0x100 * (s[1] as int)
  }

  /** `u16::to_le_bytes`. */
  function LeU16(n: U16): (r: Bytes)
    ensures |r| == 2 && FromLeU16(r) == n
  {
    [n % 0x100, n / 0x100]
  }

  lemma LeU16OfFromLeU16(s: Bytes)
    requires |s| == 2
    ensures LeU16(FromLeU16(s)) == s
  {
  }

  /** `u32::from_le_bytes`. */
  function FromLeU32(s: Bytes): (n: U32)
    requires |s| == 4
  {
    var b0, b1, b2, b3 := s[0] as int, s[1] as int, s[2] as int, s[3] as int;
    b0 + 0x100 * (b1 + 0x100 * (b2 + 0x100 * b3))
  }

  /** `u32::from_be_bytes`. */
  function FromBeU32(s: Bytes): (n: U32)
    requires |s| == 4
  {
    FromLeU32([s[3], s[2], s[1], s[0]])
  }

  /** `u32::to_le_bytes`. */
  function LeU32(n: U32): (r: Bytes)
    ensures |r| == 4
  {
    var q1 := n / 0x100;
    var q2 := q1 / 0x100;
    var q3 := q2 / 0x100;
    [n % 0x100, q1 % 0x100, q2 % 0x100, q3]
  }

  /** `u32::to_be_bytes`: the little-endian bytes in reverse order. */
  function BeU32(n: U32): (r: Bytes)
    ensures |r| == 4
  {
    var le := LeU32(n);
    [le[3], le[2], le[1], le[0]]
  }

  lemma FromLeU32OfLeU32(n: U32)
    ensures FromLeU32(LeU32(n)) == n
  {
    var q1 := n / 0x100;
    var q2 := q1 / 0x100;
    assert n == n % 0x100 + 0x100 * q1;
    assert q1 == q1 % 0x100 + 0x100 * q2;
    assert q2 == q2 % 0x100 + 0x100 * (q2 / 0x100);
  }

  lemma LeU32OfFromLeU32(s: Bytes)
    requires |s| == 4
    ensures LeU32(FromLeU32(s)) == s
  {
    var b0, b1, b2, b3 := s[0] as int, s[1] as int, s[2] as int, s[3] as int;
    var n := FromLeU32(s);
    var q1 := b1 + 0x100 * (b2 + 0x100 * b3);
    var q2 := b2 + 0x100 * b3;
    assert n == b0 + 0x100 * q1;
    assert n % 0x100 == b0 && n / 0x100 == q1;
    assert q1 % 0x100 == b1 && q1 / 0x100 == q2;
    assert q2 % 0x100 == b2 && q2 / 0x100 == b3;
  }

  /** `i32::to_le_bytes`. */
  function LeI32(x: I32): (r: Bytes)
    ensures |r| == 4
  {
    LeU32(BitsOfI32(x))
  }

  /** `i32::to_be_bytes`. */
  function BeI32(x: I32): (r: Bytes)
    ensures |r| == 4
  {
    BeU32(BitsOfI32(x))
  }

  /** `i32::from_be_bytes`. */
  function FromBeI32(s: Bytes): I32
    requires |s| == 4
  {
    I32OfBits(FromBeU32(s))
  }

  /** `i32::from_le_bytes`. */
  function FromLeI32(s: Bytes): I32
    requires |s| == 4
  {
    I32OfBits(FromLeU32(s))
  }

  lemma FromLeI32OfLeI32(x: I32)
    ensures FromLeI32(LeI32(x)) == x
  {
    FromLeU32OfLeU32(BitsOfI32(x));
  }

  lemma FromBeI32OfBeI32(x: I32)
    ensures FromBeI32(BeI32(x)) == x
  {
    var le := LeU32(BitsOfI32(x));
    FromLeU32OfLeU32(BitsOfI32(x));
    assert [BeI32(x)[3], BeI32(x)[2], BeI32(x)[1], BeI32(x)[0]] == le;
  }

  lemma LeI32OfFromLeI32(s: Bytes)
    requires |s| == 4
    ensures LeI32(FromLeI32(s)) == s
  {
    LeU32OfFromLeU32(s);
  }

  lemma BeI32OfFromBeI32(s: Bytes)
    requires |s| == 4
    ensures BeI32(FromBeI32(s)) == s
  {
    var rev := [s[3], s[2], s[1], s[0]];
    LeU32OfFromLeU32(rev);
  }

  /** Two different check values never share a big-endian encoding. */
  lemma BeI32Injective(x: I32, y: I32)
    requires BeI32(x) == BeI32(y)
    ensures x == y
  {
    FromBeI32OfBeI32(x);
    FromBeI32OfBeI32(y);
  }

  function Zeros(n: nat): (r: Bytes)
    ensures |r| == n && forall i :: 0 <= i < n ==> r[i] == 0
  {
    seq(n, _ => 0)
  }

  /** Element-wise `as u8` of a signed buffer. */
  function Unsigned(s: seq<I8>): (r: Bytes)
    ensures |r| == |s| && forall i :: 0 <= i < |s| ==> r[i] == AsU8(s[i])
  {
    seq(|s|, i requires 0 <= i < |s| => AsU8(s[i]))
  }

  /** Element-wise `as i8` of an unsigned buffer. */
  function Signed(s: Bytes): (r: seq<I8>)
    ensures |r| == |s| && Unsigned(r) == s
  {
    seq(|s|, i requires 0 <= i < |s| => AsI8(s[i]))
  }

  /** Flattening of a sequence of buffers (`Vec::extend` in a loop). */
  function Concat(ss: seq<Bytes>): (r: Bytes)
    ensures |ss| == 0 ==> r == []
  {
    if |ss| == 0 then [] else Concat(ss[..|ss| - 1]) + ss[|ss| - 1]
  }

  lemma {:induction false} ConcatAppend(a: seq<Bytes>, b: seq<Bytes>)
    ensures Concat(a + b) == Concat(a) + Concat(b)
    decreases |b|
  {
    if |b| == 0 {
      assert a + b == a;
    } else {
      var b', last := b[..|b| - 1], b[|b| - 1];
      assert (a + b)[..|a + b| - 1] == a + b' && (a + b)[|a + b| - 1] == last;
      ConcatAppend(a, b');
      assert Concat(a + b) == Concat(a) + Concat(b') + last;
      assert Concat(b) == Concat(b') + last;
    }
  }

  lemma ConcatCons(x: Bytes, rest: seq<Bytes>)
    ensures Concat([x] + rest) == x + Concat(rest)
  {
    ConcatAppend([x], rest);
    assert [x][..0] == [];
  }

  /** `iter().take_while(|b| *b != 0)`: the bytes before the first NUL. */
  function TakeUntilNul(s: Bytes): (r: Bytes)
    ensures |r| <= |s| && r == s[..|r|]
    ensures forall i :: 0 <= i < |r| ==> r[i] != 0
    ensures |r| < |s| ==> s[|r|] == 0
  {
    if |s| == 0 || s[0] == 0 then [] else [s[0]] + TakeUntilNul(s[1..])
  }

  /** The two low bytes of an integer, recombined, are its value modulo 2^16. */
  lemma LowBytes16(y: int)
    ensures y % 0x100 + 0x100 * ((y / 0x100) % 0x100) == y % 0x1_0000
  {
    var q, r := y / 0x100, y % 0x100;
    var q2, r2 := q / 0x100, q % 0x100;
    assert y == 0x1_0000 * q2 + (0x100 * r2 + r);
    assert 0 <= 0x100 * r2 + r < 0x1_0000;
  }

  function Min(a: int, b: int): int
  {
    if a < b then a else b
  }
}
