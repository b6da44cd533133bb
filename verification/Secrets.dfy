/** `encrypt` and `decrypt`: PKCS#7 padding, CBC chaining and base64 over an abstract block cipher. */
module Secrets {
  import opened Wrappers

  datatype Error = ValueError | IndexError

  datatype Result<T> = Ok(value: T) | Err(error: Error)

  const BLOCK: nat := 16

  type Block = b: Bytes | |b| == BLOCK witness seq(BLOCK, _ => 0)

  // ---- padding (section 6.3 of RFC 5652) -----------------------------------------------------

  function Repeat(b: Byte, n: nat): (r: Bytes)
    ensures |r| == n && forall i | 0 <= i < n :: r[i] == b
  {
    seq(n, _ => b)
  }

  /** Whole blocks, at least one byte of padding, each byte the padding's length. */
  function Pad(data: Bytes): (padded: Bytes)
    ensures |padded| % BLOCK == 0 && |data| < |padded| <= |data| + BLOCK
  {
    var padding := BLOCK - |data| % BLOCK;
    data + Repeat(padding, padding)
  }

  /** data[-n:], a whole sequence when n is 0 or more than its length. */
  function Tail(data: Bytes, n: nat): Bytes {
    if n == 0 || n > |data| then data else data[|data| - n..]
  }

  /** data[:-n], empty when n is 0 or more than its length. */
  function Front(data: Bytes, n: nat): Bytes {
    if n == 0 || n > |data| then [] else data[..|data| - n]
  }

  function Unpad(data: Bytes): Result<Bytes> {
    if data == [] then Err(IndexError)
    else
      var padding := data[|data| - 1];
      if Tail(data, padding) != Repeat(padding, padding) then Err(ValueError)
      else Ok(Front(data, padding))
  }

  /** What the check accepts: any number of padding bytes from 1 to 255, not just up to a block. */
  lemma UnpadExact(data: Bytes, x: Bytes)
    ensures Unpad(data) == Ok(x) <==> exists p: Byte :: p > 0 && data == x + Repeat(p, p)
  {
    if Unpad(data) == Ok(x) {
      var p := data[|data| - 1];
      assert |Tail(data, p)| == |Repeat(p, p)|;
      assert p <= |data|;
      assert data == data[..|data| - p] + data[|data| - p..];
    }
    if p: Byte :| p > 0 && data == x + Repeat(p, p) {
      assert data[|data| - 1] == p;
      assert Tail(data, p) == Repeat(p, p);
      assert Front(data, p) == x;
    }
  }

  lemma PadUnpad(data: Bytes)
    ensures Unpad(Pad(data)) == Ok(data)
  {
    var p: Byte := BLOCK - |data| % BLOCK;
    assert p > 0 && Pad(data) == data + Repeat(p, p);
    UnpadExact(Pad(data), data);
  }

  // ---- exclusive or ------------------------------------------------------------------------------

  function Pow2(n: nat): (p: nat)
    ensures p > 0
  {
    if n == 0 then 1 else 2 * Pow2(n - 1)
  }

  /** The exclusive or of the lowest n bits. */
  function XorBits(a: nat, b: nat, n: nat): (r: nat)
    ensures r < Pow2(n)
  {
    if n == 0 then 0 else (a + b) % 2 + 2 * XorBits(a / 2, b / 2, n - 1)
  }

  lemma XorHalves(a: nat, b: nat, n: nat)
    requires n > 0
    ensures XorBits(a, b, n) % 2 == (a + b) % 2
    ensures XorBits(a, b, n) / 2 == XorBits(a / 2, b / 2, n - 1)
  {
  }

  lemma OddTwice(a: nat, b: nat, r: nat)
    requires r % 2 == (a + b) % 2
    ensures (r + b) % 2 == a % 2
  {
  }

  lemma {:induction false} XorBitsTwice(a: nat, b: nat, n: nat)
    requires a < Pow2(n)
    ensures XorBits(XorBits(a, b, n), b, n) == a
  {
    if n > 0 {
      var r := XorBits(a, b, n);
      XorHalves(a, b, n);
      XorHalves(r, b, n);
      OddTwice(a, b, r);
      XorBitsTwice(a / 2, b / 2, n - 1);
    }
  }

  /** Bit i of a number. */
  function Bit(x: nat, i: nat): nat {
    x / Pow2(i) % 2
  }

  lemma HalfDown(x: nat, d: nat)
    requires d > 0
    ensures x / (2 * d) == x / 2 / d
  {
    var q, r := x / 2 / d, x / 2 % d;
    assert x / 2 == q * d + r;
    assert x == 2 * (q * d + r) + x % 2;
    assert 2 * (q * d) == q * (2 * d);
    QuotientIs(x, 2 * d, q, 2 * r + x % 2);
  }

  lemma QuotientIs(x: nat, d: nat, q: nat, r: nat)
    requires d > 0 && x == q * d + r && r < d
    ensures x / d == q
  {
    var p := x / d;
    DivisionBounds(x, d);
    assert d * (q + 1) == d * q + d && d * q == q * d;
    CancelLess(d, q, p + 1);
    CancelLess(d, p, q + 1);
  }

  lemma HalfBit(x: nat, i: nat)
    ensures Bit(x, i + 1) == Bit(x / 2, i)
  {
    HalfDown(x, Pow2(i));
  }

  lemma LowBit(x: nat)
    ensures Bit(x, 0) == x % 2
  {
  }

  lemma OddSum(a: nat, b: nat)
    ensures (a + b) % 2 == 1 <==> a % 2 != b % 2
  {
  }

  /** A bit of the exclusive or is set if and only if the two bits differ. */
  lemma {:induction false} XorBitsAt(a: nat, b: nat, n: nat, i: nat)
    requires i < n
    ensures Bit(XorBits(a, b, n), i) == 1 <==> Bit(a, i) != Bit(b, i)
  {
    var r := XorBits(a, b, n);
    XorHalves(a, b, n);
    if i == 0 {
      LowBit(a);
      LowBit(b);
      LowBit(r);
      OddSum(a, b);
    } else {
      HalfBit(r, i - 1);
      HalfBit(a, i - 1);
      HalfBit(b, i - 1);
      XorBitsAt(a / 2, b / 2, n - 1, i - 1);
    }
  }

  /** Numbers of n bits with the same bits are the same. */
  lemma {:induction false} BitsDecide(a: nat, b: nat, n: nat)
    requires a < Pow2(n) && b < Pow2(n) && forall i: nat | i < n :: Bit(a, i) == Bit(b, i)
    ensures a == b
  {
    if n > 0 {
      forall i: nat | i < n - 1 ensures Bit(a / 2, i) == Bit(b / 2, i) {
        HalfBit(a, i);
        HalfBit(b, i);
      }
      assert Bit(a, 0) == Bit(b, 0);
      BitsDecide(a / 2, b / 2, n - 1);
    }
  }

  function Xor(a: Byte, b: Byte): Byte {
    XorBits(a, b, 8)
  }

  lemma XorTwice(a: Byte, b: Byte)
    ensures Xor(Xor(a, b), b) == a
  {
    XorBitsTwice(a, b, 8);
  }

  function XorBlock(a: Block, b: Block): Block {
    seq(BLOCK, i requires 0 <= i < BLOCK => Xor(a[i], b[i]))
  }

  lemma XorBlockTwice(a: Block, b: Block)
    ensures XorBlock(XorBlock(a, b), b) == a
  {
    forall i | 0 <= i < BLOCK ensures XorBlock(XorBlock(a, b), b)[i] == a[i] {
      XorTwice(a[i], b[i]);
    }
  }

  /** x is the exclusive or of a and b, bit by bit. */
  ghost predicate IsXor(x: Block, a: Block, b: Block) {
    forall i: nat, j: nat | i < BLOCK && j < 8 :: Bit(x[i], j) == 1 <==> Bit(a[i], j) != Bit(b[i], j)
  }

  lemma XorBlockExact(x: Block, a: Block, b: Block)
    ensures IsXor(x, a, b) <==> x == XorBlock(a, b)
  {
    assert Pow2(8) == 256;
    var y := XorBlock(a, b);
    forall i: nat, j: nat | i < BLOCK && j < 8
      ensures Bit(y[i], j) == 1 <==> Bit(a[i], j) != Bit(b[i], j)
    {
      XorBitsAt(a[i], b[i], 8, j);
    }
    if IsXor(x, a, b) {
      forall i: nat | i < BLOCK ensures x[i] == y[i] {
        assert forall j: nat | j < 8 :: Bit(x[i], j) == 1 <==> Bit(y[i], j) == 1;
        BitsDecide(x[i], y[i], 8);
      }
    }
  }

  // ---- CBC (section 6.2 of NIST SP 800-38A) --------------------------------------------------

  /** A block cipher under one key, with the text encoding used around it. */
  datatype Cipher = Cipher(enc: Block -> Block, dec: Block -> Block,
                           encode: string -> Bytes, decode: Bytes -> Result<string>)

  ghost predicate Sound(c: Cipher) {
    && (forall b: Block :: c.dec(c.enc(b)) == b)
    && (forall s: string :: c.decode(c.encode(s)) == Ok(s))
  }

  function EncryptCbc(c: Cipher, iv: Block, data: Bytes): (r: Bytes)
    requires |data| % BLOCK == 0
    ensures |r| == |data|
    decreases |data|
  {
    if data == [] then []
    else
      var block: Block := c.enc(XorBlock(data[..BLOCK], iv));
      block + EncryptCbc(c, block, data[BLOCK..])
  }

  function DecryptCbc(c: Cipher, iv: Block, data: Bytes): (r: Bytes)
    requires |data| % BLOCK == 0
    ensures |r| == |data|
    decreases |data|
  {
    if data == [] then []
    else
      var block: Block := data[..BLOCK];
      XorBlock(c.dec(block), iv) + DecryptCbc(c, block, data[BLOCK..])
  }

  lemma {:induction false} CbcRoundTrip(c: Cipher, iv: Block, data: Bytes)
    requires Sound(c) && |data| % BLOCK == 0
    ensures DecryptCbc(c, iv, EncryptCbc(c, iv, data)) == data
    decreases |data|
  {
    if data != [] {
      var first: Block, rest := data[..BLOCK], data[BLOCK..];
      var block: Block := c.enc(XorBlock(first, iv));
      var more := EncryptCbc(c, block, rest);
      CbcRoundTrip(c, block, rest);
      XorBlockTwice(first, iv);
      assert EncryptCbc(c, iv, data) == block + more;
      assert (block + more)[..BLOCK] == block && (block + more)[BLOCK..] == more;
      assert data == first + rest;
    }
  }

  // ---- what chaining means, block by block -------------------------------------------------------

  function BlockAt(data: Bytes, k: nat): Block
    requires (k + 1) * BLOCK <= |data|
  {
    data[k * BLOCK..(k + 1) * BLOCK]
  }

  /** The block before: of the chained text, or the vector. */
  function Before(chained: Bytes, iv: Block, k: nat): Block
    requires k * BLOCK <= |chained|
  {
    if k == 0 then iv else BlockAt(chained, k - 1)
  }

  lemma BlockInRest(first: Block, rest: Bytes, k: nat)
    requires (k + 1) * BLOCK <= |rest|
    ensures BlockAt(first + rest, k + 1) == BlockAt(rest, k)
    ensures BlockAt(first + rest, 0) == first
  {
  }

  lemma {:induction false} ChainedAt(c: Cipher, iv: Block, data: Bytes, k: nat)
    requires |data| % BLOCK == 0 && (k + 1) * BLOCK <= |data|
    ensures var chained := EncryptCbc(c, iv, data);
            BlockAt(chained, k) == c.enc(XorBlock(BlockAt(data, k), Before(chained, iv, k)))
    decreases |data|
  {
    var first: Block, rest := data[..BLOCK], data[BLOCK..];
    var block: Block := c.enc(XorBlock(first, iv));
    var more := EncryptCbc(c, block, rest);
    assert data == first + rest && EncryptCbc(c, iv, data) == block + more;
    if k > 0 {
      ChainedAt(c, block, rest, k - 1);
      BlockInRest(first, rest, k - 1);
      BlockInRest(block, more, k - 1);
      if k > 1 { BlockInRest(block, more, k - 2); }
    }
  }

  lemma {:induction false} UnchainedAt(c: Cipher, iv: Block, chained: Bytes, k: nat)
    requires |chained| % BLOCK == 0 && (k + 1) * BLOCK <= |chained|
    ensures BlockAt(DecryptCbc(c, iv, chained), k) == XorBlock(c.dec(BlockAt(chained, k)), Before(chained, iv, k))
    decreases |chained|
  {
    var first: Block, rest := chained[..BLOCK], chained[BLOCK..];
    var plain: Block := XorBlock(c.dec(first), iv);
    var more := DecryptCbc(c, first, rest);
    assert chained == first + rest && DecryptCbc(c, iv, chained) == plain + more;
    if k > 0 {
      UnchainedAt(c, first, rest, k - 1);
      BlockInRest(first, rest, k - 1);
      BlockInRest(plain, more, k - 1);
      if k > 1 { BlockInRest(first, rest, k - 2); }
    }
  }

  // ---- base64 (section 4 of RFC 4648) ----------------------------------------------------------

  type Sextet = v: int | 0 <= v < 64

  /** What a character of the text stands for. */
  datatype Symbol = Letter(v: Sextet) | Padding | Foreign

  function CharOf(symbol: Symbol): char {
    match symbol
    case Letter(v) =>
      if v < 26 then (v + 65) as char
      else if v < 52 then (v + 71) as char
      else if v < 62 then (v - 4) as char
      else if v == 62 then '+'
      else '/'
    case Padding => '='
    case Foreign => '?'
  }

  function SymbolOf(ch: char): Symbol {
    if 'A' <= ch <= 'Z' then Letter(ch as int - 65)
    else if 'a' <= ch <= 'z' then Letter(ch as int - 71)
    else if '0' <= ch <= '9' then Letter(ch as int + 4)
    else if ch == '+' then Letter(62)
    else if ch == '/' then Letter(63)
    else if ch == '=' then Padding
    else Foreign
  }

  function Chars(symbols: seq<Symbol>): string {
    seq(|symbols|, i requires 0 <= i < |symbols| => CharOf(symbols[i]))
  }

  function Symbols(s: string): seq<Symbol> {
    seq(|s|, i requires 0 <= i < |s| => SymbolOf(s[i]))
  }

  lemma AlphabetRoundTrip(symbols: seq<Symbol>)
    ensures Symbols(Chars(symbols)) == symbols
  {
    forall i | 0 <= i < |symbols| ensures SymbolOf(CharOf(symbols[i])) == symbols[i] {
    }
  }

  /** The sextets of three bytes, and the bytes again. */
  function Sextet0(a: Byte): Sextet { a / 4 }
  function Sextet1(a: Byte, b: Byte): Sextet { a % 4 * 16 + b / 16 }
  function Sextet2(b: Byte, c: Byte): Sextet { b % 16 * 4 + c / 64 }
  function Sextet3(c: Byte): Sextet { c % 64 }
  function Byte0(v0: Sextet, v1: Sextet): Byte { v0 * 4 + v1 / 16 }
  function Byte1(v1: Sextet, v2: Sextet): Byte { v1 % 16 * 16 + v2 / 4 }
  function Byte2(v2: Sextet, v3: Sextet): Byte { v2 % 4 * 64 + v3 }

  function Encode(data: Bytes): seq<Symbol> {
    if data == [] then []
    else if |data| == 1 then
      [Letter(Sextet0(data[0])), Letter(Sextet1(data[0], 0)), Padding, Padding]
    else if |data| == 2 then
      [Letter(Sextet0(data[0])), Letter(Sextet1(data[0], data[1])), Letter(Sextet2(data[1], 0)), Padding]
    else
      [Letter(Sextet0(data[0])), Letter(Sextet1(data[0], data[1])),
       Letter(Sextet2(data[1], data[2])), Letter(Sextet3(data[2]))] + Encode(data[3..])
  }

  /** Four characters as three bytes, one less for each pad at the end. */
  function DecodeFour(s0: Symbol, s1: Symbol, s2: Symbol, s3: Symbol): Result<Bytes> {
    match (s0, s1, s2, s3)
    case (Letter(v0), Letter(v1), Letter(v2), Letter(v3)) => Ok([Byte0(v0, v1), Byte1(v1, v2), Byte2(v2, v3)])
    case (Letter(v0), Letter(v1), Letter(v2), Padding) => Ok([Byte0(v0, v1), Byte1(v1, v2)])
    case (Letter(v0), Letter(v1), Padding, Padding) => Ok([Byte0(v0, v1)])
    case _ => Err(ValueError)
  }

  /** Only the last four characters may hold pads. */
  function Decode(s: seq<Symbol>): Result<Bytes> {
    if s == [] then Ok([])
    else if |s| < 4 then Err(ValueError)
    else
      var first := DecodeFour(s[0], s[1], s[2], s[3]);
      if |s| == 4 || first.Err? then first
      else if |first.value| < 3 then Err(ValueError)
      else
        var rest := Decode(s[4..]);
        if rest.Err? then rest else Ok(first.value + rest.value)
  }

  lemma DecodeOne(v0: Sextet, v1: Sextet)
    ensures Decode([Letter(v0), Letter(v1), Padding, Padding]) == Ok([Byte0(v0, v1)])
  {
  }

  lemma DecodeTwo(v0: Sextet, v1: Sextet, v2: Sextet)
    ensures Decode([Letter(v0), Letter(v1), Letter(v2), Padding]) == Ok([Byte0(v0, v1), Byte1(v1, v2)])
  {
  }

  lemma Regroup(a: Byte, b: Byte, c: Byte)
    ensures Byte0(Sextet0(a), Sextet1(a, b)) == a
    ensures Byte1(Sextet1(a, b), Sextet2(b, c)) == b
    ensures Byte2(Sextet2(b, c), Sextet3(c)) == c
  {
  }

  lemma DecodeMore(v0: Sextet, v1: Sextet, v2: Sextet, v3: Sextet, s: seq<Symbol>, rest: Bytes)
    requires Decode(s) == Ok(rest)
    ensures Decode([Letter(v0), Letter(v1), Letter(v2), Letter(v3)] + s)
            == Ok([Byte0(v0, v1), Byte1(v1, v2), Byte2(v2, v3)] + rest)
  {
    var four := [Letter(v0), Letter(v1), Letter(v2), Letter(v3)];
    assert (four + s)[4..] == s;
    if s == [] {
      assert [Byte0(v0, v1), Byte1(v1, v2), Byte2(v2, v3)] + rest == [Byte0(v0, v1), Byte1(v1, v2), Byte2(v2, v3)];
    }
  }

  /** The alphabet of the standard. */
  lemma AlphabetExact(v: Sextet)
    ensures v < 26 ==> CharOf(Letter(v)) == "ABCDEFGHIJKLMNOPQRSTUVWXYZ"[v]
    ensures 26 <= v < 52 ==> CharOf(Letter(v)) == "abcdefghijklmnopqrstuvwxyz"[v - 26]
    ensures 52 <= v ==> CharOf(Letter(v)) == "0123456789+/"[v - 52]
    ensures CharOf(Padding) == '='
  {
    var upper, lower := "ABCDEFGHIJKLMNOPQRSTUVWXYZ", "abcdefghijklmnopqrstuvwxyz";
    assert v < 26 ==> upper[v] == (v + 65) as char;
    assert 26 <= v < 52 ==> lower[v - 26] == (v + 71) as char;
  }

  /** Three bytes and their four letters are the same number, most significant part first. */
  lemma ThreeExact(a: Byte, b: Byte, c: Byte, v0: Sextet, v1: Sextet, v2: Sextet, v3: Sextet)
    ensures Encode([a, b, c]) == [Letter(v0), Letter(v1), Letter(v2), Letter(v3)]
            <==> 65536 * a + 256 * b + c == 262144 * v0 + 4096 * v1 + 64 * v2 + v3
  {
    SameNumber(a, b, c);
    SameLetters(v0, v1, v2, v3, Sextet0(a), Sextet1(a, b), Sextet2(b, c), Sextet3(c));
    assert Encode([a, b, c]) == [Letter(Sextet0(a)), Letter(Sextet1(a, b)), Letter(Sextet2(b, c)), Letter(Sextet3(c))];
  }

  /** Two bytes are filled up with zero bits to whole letters, and with a pad to four characters. */
  lemma TwoExact(a: Byte, b: Byte, v0: Sextet, v1: Sextet, v2: Sextet)
    ensures Encode([a, b]) == [Letter(v0), Letter(v1), Letter(v2), Padding] <==> 4 * (256 * a + b) == 4096 * v0 + 64 * v1 + v2
  {
    var u0, u1, u2 := TwoLetters(a, b);
    SameLetters(0, v0, v1, v2, 0, u0, u1, u2);
  }

  lemma TwoLetters(a: Byte, b: Byte) returns (u0: Sextet, u1: Sextet, u2: Sextet)
    ensures Encode([a, b]) == [Letter(u0), Letter(u1), Letter(u2), Padding] && 4 * (256 * a + b) == 4096 * u0 + 64 * u1 + u2
  {
    u0, u1, u2 := Sextet0(a), Sextet1(a, b), Sextet2(b, 0);
  }

  /** One byte likewise, with two pads. */
  lemma OneExact(a: Byte, v0: Sextet, v1: Sextet)
    ensures Encode([a]) == [Letter(v0), Letter(v1), Padding, Padding] <==> 16 * a == 64 * v0 + v1
  {
    var u0: Sextet, u1: Sextet := Sextet0(a), Sextet1(a, 0);
    assert Encode([a]) == [Letter(u0), Letter(u1), Padding, Padding] && 16 * a == 64 * u0 + u1;
    SameLetters(0, 0, v0, v1, 0, 0, u0, u1);
  }

  lemma SameNumber(a: Byte, b: Byte, c: Byte)
    ensures 65536 * a + 256 * b + c
            == 262144 * Sextet0(a) + 4096 * Sextet1(a, b) + 64 * Sextet2(b, c) + Sextet3(c)
  {
  }

  lemma SameLetters(v0: Sextet, v1: Sextet, v2: Sextet, v3: Sextet, u0: Sextet, u1: Sextet, u2: Sextet, u3: Sextet)
    ensures 262144 * v0 + 4096 * v1 + 64 * v2 + v3 == 262144 * u0 + 4096 * u1 + 64 * u2 + u3
            <==> v0 == u0 && v1 == u1 && v2 == u2 && v3 == u3
  {
  }

  lemma EncodeMore(three: Bytes, rest: Bytes)
    requires |three| == 3
    ensures Encode(three + rest) == Encode(three) + Encode(rest)
  {
    var all := three + rest;
    assert all[..3] == three && all[3..] == rest;
    assert all[0] == three[0] && all[1] == three[1] && all[2] == three[2];
    assert Encode(three[3..]) == [];
  }

  /** Whole groups of three bytes are encoded one after the other. */
  lemma {:induction false} EncodeAppend(front: Bytes, rest: Bytes)
    requires |front| % 3 == 0
    ensures Encode(front + rest) == Encode(front) + Encode(rest)
    decreases |front|
  {
    if front == [] {
      assert front + rest == rest;
    } else {
      var three, more := front[..3], front[3..];
      EncodeAppend(more, rest);
      EncodeMore(three, more);
      EncodeMore(three, more + rest);
      assert front == three + more && front + rest == three + (more + rest);
    }
  }

  lemma OneBack(a: Byte)
    ensures Decode(Encode([a])) == Ok([a])
  {
    Regroup(a, 0, 0);
    DecodeOne(Sextet0(a), Sextet1(a, 0));
  }

  lemma TwoBack(a: Byte, b: Byte)
    ensures Decode(Encode([a, b])) == Ok([a, b])
  {
    Regroup(a, b, 0);
    DecodeTwo(Sextet0(a), Sextet1(a, b), Sextet2(b, 0));
  }

  lemma ThreeBack(a: Byte, b: Byte, c: Byte, s: seq<Symbol>, rest: Bytes)
    requires Decode(s) == Ok(rest)
    ensures Decode(Encode([a, b, c]) + s) == Ok([a, b, c] + rest)
  {
    Regroup(a, b, c);
    assert Encode([a, b, c]) == [Letter(Sextet0(a)), Letter(Sextet1(a, b)), Letter(Sextet2(b, c)), Letter(Sextet3(c))];
    DecodeMore(Sextet0(a), Sextet1(a, b), Sextet2(b, c), Sextet3(c), s, rest);
  }

  lemma {:induction false} Base64RoundTrip(data: Bytes)
    ensures Decode(Encode(data)) == Ok(data)
    decreases |data|
  {
    if |data| == 1 {
      assert data == [data[0]];
      OneBack(data[0]);
    } else if |data| == 2 {
      assert data == [data[0], data[1]];
      TwoBack(data[0], data[1]);
    } else if |data| > 2 {
      var three, rest := [data[0], data[1], data[2]], data[3..];
      assert data == three + rest;
      Base64RoundTrip(rest);
      EncodeMore(three, rest);
      ThreeBack(data[0], data[1], data[2], Encode(rest), rest);
    }
  }

  // ---- encrypt and decrypt -----------------------------------------------------------------------

  /** The random vector becomes a parameter. */
  function Encrypt(c: Cipher, iv: Block, secret: string): string {
    Chars(Encode(EncryptData(c, iv, c.encode(secret))))
  }

  function EncryptData(c: Cipher, iv: Block, plain: Bytes): Bytes {
    iv + EncryptCbc(c, iv, Pad(plain))
  }

  /** AES-CBC refuses a short vector and a partial block; an empty text has no last byte. */
  function DecryptData(c: Cipher, data: Bytes): Result<Bytes> {
    if |data| < BLOCK then Err(ValueError)
    else
      var iv: Block, chained := data[..BLOCK], data[BLOCK..];
      if |chained| % BLOCK != 0 then Err(ValueError) else Unpad(DecryptCbc(c, iv, chained))
  }

  function Decrypt(c: Cipher, secret: string): Result<string> {
    match Decode(Symbols(secret))
    case Err(e) => Err(e)
    case Ok(data) =>
      match DecryptData(c, data)
      case Err(e) => Err(e)
      case Ok(plain) => c.decode(plain)
  }

  lemma SplitData(c: Cipher, iv: Block, chained: Bytes)
    requires |chained| % BLOCK == 0
    ensures DecryptData(c, iv + chained) == Unpad(DecryptCbc(c, iv, chained))
  {
    var data := iv + chained;
    assert data[..BLOCK] == iv && data[BLOCK..] == chained;
  }

  /**
   What is stored, block by block: first the vector, then each block of the padded text, xored bit by bit with
   the stored block before it and enciphered.
   */
  lemma StoredAt(c: Cipher, iv: Block, plain: Bytes, k: nat)
    requires (k + 1) * BLOCK <= |Pad(plain)|
    ensures var data := EncryptData(c, iv, plain);
            && |data| == BLOCK + |Pad(plain)| && BlockAt(data, 0) == iv
            && exists x: Block | IsXor(x, BlockAt(Pad(plain), k), BlockAt(data, k)) :: BlockAt(data, k + 1) == c.enc(x)
  {
    var padded := Pad(plain);
    var chained := EncryptCbc(c, iv, padded);
    ChainedAt(c, iv, padded, k);
    BlockInRest(iv, chained, k);
    if k > 0 { BlockInRest(iv, chained, k - 1); }
    var x := XorBlock(BlockAt(padded, k), Before(chained, iv, k));
    XorBlockExact(x, BlockAt(padded, k), Before(chained, iv, k));
  }

  /** Reading it back: each block deciphered and xored bit by bit with the stored block before it. */
  lemma ReadAt(c: Cipher, data: Bytes, k: nat)
    requires |data| % BLOCK == 0 && (k + 2) * BLOCK <= |data|
    ensures var iv: Block, chained := BlockAt(data, 0), data[BLOCK..];
            && |DecryptCbc(c, iv, chained)| == |data| - BLOCK
            && IsXor(BlockAt(DecryptCbc(c, iv, chained), k), c.dec(BlockAt(data, k + 1)), BlockAt(data, k))
  {
    var iv: Block, chained := BlockAt(data, 0), data[BLOCK..];
    assert data == iv + chained;
    UnchainedAt(c, iv, chained, k);
    BlockInRest(iv, chained, k);
    if k > 0 { BlockInRest(iv, chained, k - 1); }
    XorBlockExact(BlockAt(DecryptCbc(c, iv, chained), k), c.dec(BlockAt(data, k + 1)), BlockAt(data, k));
  }

  lemma DataRoundTrip(c: Cipher, iv: Block, plain: Bytes)
    requires Sound(c)
    ensures DecryptData(c, EncryptData(c, iv, plain)) == Ok(plain)
  {
    SplitData(c, iv, EncryptCbc(c, iv, Pad(plain)));
    CbcRoundTrip(c, iv, Pad(plain));
    PadUnpad(plain);
  }

  /** Every secret comes back, whatever the vector and however its length sits on the block size. */
  lemma SecretRoundTrip(c: Cipher, iv: Block, secret: string)
    requires Sound(c)
    ensures Decrypt(c, Encrypt(c, iv, secret)) == Ok(secret)
  {
    var data := EncryptData(c, iv, c.encode(secret));
    AlphabetRoundTrip(Encode(data));
    Base64RoundTrip(data);
    DataRoundTrip(c, iv, c.encode(secret));
  }

  /** A stored secret gives some text exactly when it is whole blocks after the vector and they end in valid padding. */
  lemma DecryptExact(c: Cipher, iv: Block, chained: Bytes, x: Bytes)
    ensures DecryptData(c, iv + chained) == Ok(x)
            <==> && |chained| % BLOCK == 0
                 && exists p: Byte :: p > 0 && DecryptCbc(c, iv, chained) == x + Repeat(p, p)
  {
    var data := iv + chained;
    assert data[..BLOCK] == iv && data[BLOCK..] == chained;
    if |chained| % BLOCK == 0 {
      UnpadExact(DecryptCbc(c, iv, chained), x);
    }
  }
}
