/** `DataGenerator`: data of an exact size, and writing it to a file in chunks. */
module DataGenerator {
  import opened Wrappers

  datatype Error = TypeError | UnboundLocalError | OverflowError

  datatype Result<T> = Ok(value: T) | Raises(error: Error)

  const MB: int := 1024 * 1024
  const DEFAULT_DATA_TYPE: int := 1
  const BLOCK: int := 16

  // ---- padding -----------------------------------------------------------------------------------

  function Fill(n: int): (s: string)
    ensures |s| == if n > 0 then n else 0
  {
    seq(if n > 0 then n else 0, _ => 'i')
  }

  /** `__get_buf`: megabyte by megabyte, yet exactly as long as asked. */
  function GetBuf(size: int): (s: string)
    ensures s == Fill(size)
    decreases size
  {
    if size <= 0 then ""
    else if size > MB then Fill(MB) + GetBuf(size - MB)
    else Fill(MB)[..size]
  }

  // ---- repr of a byte string ---------------------------------------------------------------------

  function HexDigit(v: int): char
    requires 0 <= v < 16
  {
    if v < 10 then (v + 48) as char else (v + 87) as char
  }

  /** Double quotes only when there is a single quote inside and no double one. */
  function QuoteFor(buf: Bytes): (q: Byte)
    ensures q == 34 || q == 39
  {
    if 39 in buf && 34 !in buf then 34 else 39
  }

  function ReprByte(b: Byte, quote: Byte): (s: string)
    requires quote == 34 || quote == 39
    ensures |s| >= 1 && forall i | 0 <= i < |s| :: s[i] as int < 128
  {
    if b == quote || b == 92 then ['\\', b as char]
    else if b == 9 then "\\t"
    else if b == 10 then "\\n"
    else if b == 13 then "\\r"
    else if b < 32 || b >= 127 then ['\\', 'x', HexDigit(b / 16), HexDigit(b % 16)]
    else [b as char]
  }

  function ReprBody(buf: Bytes, quote: Byte): (s: string)
    requires quote == 34 || quote == 39
    ensures |s| >= |buf| && forall i | 0 <= i < |s| :: s[i] as int < 128
  {
    if buf == [] then "" else ReprByte(buf[0], quote) + ReprBody(buf[1..], quote)
  }

  /** `str(buf)`: ASCII, and at least three characters longer than the bytes. */
  function Repr(buf: Bytes): (s: string)
    ensures |s| >= |buf| + 3 && forall i | 0 <= i < |s| :: s[i] as int < 128
  {
    var quote := QuoteFor(buf);
    ['b', quote as char] + ReprBody(buf, quote) + [quote as char]
  }

  /** What Python reads between the quotes of a byte string: a character for itself, or an escape. */
  function Unescaped(s: string): Option<Bytes> {
    if s == "" then Some([])
    else if s[0] != '\\' then Then(s[0] as int, Unescaped(s[1..]))
    else if |s| > 1 && s[1] in "tnr\\'\"" then
      Then(match s[1] case 't' => 9 case 'n' => 10 case 'r' => 13 case c => c as int, Unescaped(s[2..]))
    else if |s| > 3 && s[1] == 'x' && HexValue(s[2]).Some? && HexValue(s[3]).Some? then
      Then(16 * HexValue(s[2]).value + HexValue(s[3]).value, Unescaped(s[4..]))
    else None
  }

  function Then(b: int, rest: Option<Bytes>): Option<Bytes> {
    if 0 <= b < 256 && rest.Some? then Some([b] + rest.value) else None
  }

  function HexValue(c: char): Option<nat> {
    if '0' <= c <= '9' then Some(c as int - 48) else if 'a' <= c <= 'f' then Some(c as int - 87) else None
  }

  lemma ReadByte(b: Byte, quote: Byte, rest: string)
    requires quote == 34 || quote == 39
    ensures Unescaped(ReprByte(b, quote) + rest) == Then(b, Unescaped(rest))
  {
    var form := ReprByte(b, quote);
    var s := form + rest;
    assert s[|form|..] == rest && s[..|form|] == form;
    assert form[0] == s[0] && (|form| > 1 ==> s[1] == form[1]) && (|form| == 4 ==> s[2] == form[2] && s[3] == form[3]);
  }

  lemma {:induction false} ReadBody(buf: Bytes, quote: Byte)
    requires quote == 34 || quote == 39
    ensures Unescaped(ReprBody(buf, quote)) == Some(buf)
  {
    if buf != [] {
      ReadByte(buf[0], quote, ReprBody(buf[1..], quote));
      ReadBody(buf[1..], quote);
      assert [buf[0]] + buf[1..] == buf;
    }
  }

  /** The printed form is a literal for the bytes: b, the quote the bytes call for, what reads back as them, the quote. */
  lemma ReprReadsBack(buf: Bytes)
    ensures exists body :: Unescaped(body) == Some(buf)
              && Repr(buf) == if 39 in buf && 34 !in buf then "b\"" + body + "\"" else "b'" + body + "'"
  {
    var quote := QuoteFor(buf);
    ReadBody(buf, quote);
    assert Repr(buf) == ['b', quote as char] + ReprBody(buf, quote) + [quote as char];
  }

  // ---- the buffer that does not compress ---------------------------------------------------------

  /** `int(100 - 1 / ratio * 100)`. */
  function Percent(ratio: int): (p: int)
    requires ratio >= 1
    ensures 0 <= p < 100
  {
    var taken := (100 + ratio - 1) / ratio;
    assert 1 <= taken <= 100 by { Share(ratio); }
    100 - taken
  }

  lemma Share(ratio: int)
    requires ratio >= 1
    ensures 1 <= (100 + ratio - 1) / ratio <= 100
  {
    var q := (99 + ratio) / ratio;
    assert q * ratio <= 99 + ratio < (q + 1) * ratio;
    assert q > 100 ==> 101 * ratio <= q * ratio;
    assert q < 1 ==> (q + 1) * ratio <= ratio;
  }

  /**
   `int(size * (1.0 - percent / 100.0))` in doubles: the whole part of the exact share or, where that is
   a whole number, possibly one less - 19 bytes, not 20, are kept of 100 at ratio 5.
   */
  predicate ShareOf(size: nat, ratio: int, kept: nat)
    requires ratio >= 1
  {
    var t := 100 - Percent(ratio);
    100 * kept <= size * t <= 100 * (kept + 1)
  }

  /** The bytes kept are the size over the ratio: at most one byte below, and above by no more than a percent of the size. */
  lemma KeptShare(size: nat, ratio: int, kept: nat)
    requires ratio >= 1 && ShareOf(size, ratio, kept)
    ensures size <= ratio * (kept + 1)
    ensures 100 * (ratio * kept) <= size * (100 + ratio)
    ensures kept <= size
  {
    var t := 100 - Percent(ratio);
    RoundedUp(ratio, t);
    NotMuchLess(size, ratio, t, kept);
    NotMuchMore(size, ratio, t, kept);
    MulKeepsOrder(size, t, 100);
  }

  lemma NotMuchLess(size: nat, ratio: int, t: int, k: nat)
    requires ratio >= 1 && 100 <= ratio * t && size * t <= 100 * (k + 1)
    ensures size <= ratio * (k + 1)
  {
    MulKeepsOrder(ratio, size * t, 100 * (k + 1));
    MulKeepsOrder(size, 100, ratio * t);
    assert size * (ratio * t) == ratio * (size * t);
    assert ratio * (100 * (k + 1)) == 100 * (ratio * (k + 1));
  }

  lemma NotMuchMore(size: nat, ratio: int, t: int, k: nat)
    requires ratio >= 1 && ratio * t < 100 + ratio && 100 * k <= size * t
    ensures 100 * (ratio * k) <= size * (100 + ratio)
  {
    MulKeepsOrder(ratio, 100 * k, size * t);
    MulKeepsOrder(size, ratio * t, 100 + ratio);
    assert size * (ratio * t) == ratio * (size * t);
    assert ratio * (100 * k) == 100 * (ratio * k);
  }

  lemma RoundedUp(ratio: int, t: int)
    requires ratio >= 1 && t == (100 + ratio - 1) / ratio
    ensures 100 <= ratio * t < 100 + ratio
  {
    assert (99 + ratio) == ratio * t + (99 + ratio) % ratio;
  }

  /** `array('l', [seed])`: eight bytes, least significant first. */
  function LongBytes(v: int, n: nat): (b: Bytes)
    ensures |b| == n
    decreases n
  {
    if n == 0 then [] else [v % 256] + LongBytes(v / 256, n - 1)
  }

  function Longs(seed: int, size: nat): (b: Bytes)
    ensures |b| == 8 * size
    decreases size
  {
    if size == 0 then [] else LongBytes(seed, 8) + Longs(seed, size - 1)
  }

  function Pow256(n: nat): (p: nat)
    ensures p > 0
  {
    if n == 0 then 1 else 256 * Pow256(n - 1)
  }

  lemma QuotientIs(x: int, d: int, q: int, r: int)
    requires x == q * d + r && 0 <= r < d
    ensures x / d == q
  {
    var p := x / d;
    assert x == d * p + x % d;
    assert d * p == p * d && (q - p) * d == q * d - p * d;
    if q > p { MulKeepsOrder(d, 1, q - p); } else if q < p { MulKeepsOrder(d, 1, p - q); }
  }

  lemma DivideFurther(v: int, d: int)
    requires d > 0
    ensures v / 256 / d == v / (256 * d)
  {
    var q, r := v / 256 / d, v / 256 % d;
    assert v / 256 == q * d + r;
    assert 256 * (q * d) == q * (256 * d);
    QuotientIs(v, 256 * d, q, 256 * r + v % 256);
  }

  lemma {:induction false} LongBytesAt(v: int, n: nat, i: nat)
    requires i < n
    ensures LongBytes(v, n)[i] == v / Pow256(i) % 256
    decreases i
  {
    if i > 0 {
      LongBytesAt(v / 256, n - 1, i - 1);
      DivideFurther(v, Pow256(i - 1));
    }
  }

  /** So many times the eight bytes of the two's complement, least significant first. */
  ghost predicate SeedLongs(longs: Bytes, seed: int, size: nat) {
    |longs| == 8 * size && forall j | 0 <= j < 8 * size :: longs[j] == seed / Pow256(j % 8) % 256
  }

  lemma {:induction false} LongsExact(seed: int, size: nat)
    ensures SeedLongs(Longs(seed, size), seed, size)
  {
    if size > 0 {
      LongsExact(seed, size - 1);
      var first, rest := LongBytes(seed, 8), Longs(seed, size - 1);
      forall j | 0 <= j < 8 * size ensures (first + rest)[j] == seed / Pow256(j % 8) % 256 {
        if j < 8 {
          LongBytesAt(seed, 8, j);
        } else {
          assert (first + rest)[j] == rest[j - 8] && (j - 8) % 8 == j % 8;
        }
      }
    }
  }

  /** What the outside supplies: random bytes, the stream cipher, and what the doubles make of a share. */
  datatype Env = Env(urandom: nat -> Bytes, ofb: Bytes -> Bytes, kept: (nat, int) -> nat)

  ghost predicate Sized(env: Env) {
    && (forall n: nat :: |env.urandom(n)| == n)
    && (forall b: Bytes :: |env.ofb(b)| == |b|)
    && (forall size: nat, ratio: int :: env.kept(size, ratio) <= size)
  }

  /** A buffer that is not whole blocks is joined with a text pad, which bytes refuse. */
  function EncryptBuf(env: Env, buf: Bytes): Result<Bytes> {
    if |buf| % BLOCK != 0 then Raises(TypeError)
    else
      var out := env.ofb(buf);
      Ok(if |buf| <= |out| then out[..|buf|] else out)
  }

  function Prefix(buf: Bytes, n: nat): Bytes {
    if n <= |buf| then buf[..n] else buf
  }

  function UncompressibleBuffer(env: Env, ratio: int, size: nat, seed: Option<int>): Result<Bytes>
    requires ratio >= 1
  {
    if seed.None? || seed.value == 0 then Ok(Prefix(env.urandom(size), env.kept(size, ratio)))
    else if seed.value < -0x8000_0000_0000_0000 || seed.value >= 0x8000_0000_0000_0000 then Raises(OverflowError)
    else
      var buf := EncryptBuf(env, Longs(seed.value, size));
      if buf.Raises? then buf else Ok(Prefix(buf.value, env.kept(size, ratio)))
  }

  // ---- generate ------------------------------------------------------------------------------------

  function Encoded(s: string): (b: Bytes)
    requires forall i | 0 <= i < |s| :: s[i] as int < 128
    ensures |b| == |s|
  {
    seq(|s|, i requires 0 <= i < |s| => s[i] as int)
  }

  function Generate(env: Env, size: nat, datatype_: int, ratio: int, seed: Option<int>): Result<Bytes> {
    if size == 0 then Raises(TypeError)
    else if datatype_ != DEFAULT_DATA_TYPE || ratio < 1 then Raises(UnboundLocalError)
    else
      var buf := UncompressibleBuffer(env, ratio, size, seed);
      if buf.Raises? then buf
      else Ok(Packed(buf.value, size))
  }

  /** `str(buf)` and the filler, encoded and cut to the size. */
  function Packed(raw: Bytes, size: nat): Bytes {
    Prefix(Encoded(Repr(raw) + GetBuf(size - |raw|)), size)
  }

  predicate Seeded(seed: Option<int>) {
    seed.Some? && seed.value != 0
  }

  predicate IsLong(v: int) {
    -0x8000_0000_0000_0000 <= v < 0x8000_0000_0000_0000
  }

  lemma WholeBlocks(size: nat)
    ensures (8 * size) % BLOCK == 0 <==> size % 2 == 0
  {
    var half := size / 2;
    assert size == 2 * half + size % 2;
    assert 8 * size == BLOCK * half + 8 * (size % 2);
  }

  /** Data comes out exactly for a positive size, the default type, a ratio of at least 1, and with a seed an even size. */
  lemma GenerateSucceeds(env: Env, size: nat, datatype_: int, ratio: int, seed: Option<int>)
    requires Sized(env)
    ensures Generate(env, size, datatype_, ratio, seed).Ok?
            <==> && size > 0 && datatype_ == DEFAULT_DATA_TYPE && ratio >= 1
                 && (Seeded(seed) ==> size % 2 == 0 && IsLong(seed.value))
  {
    WholeBlocks(size);
  }

  /** The printed form of the raw bytes, then filler up to the size. */
  ghost predicate PrintedThenFilled(data: Bytes, raw: Bytes, size: nat) {
    && |data| == size
    && (forall j | 0 <= j < size && j < |Repr(raw)| :: data[j] == Repr(raw)[j] as int)
    && (forall j | |Repr(raw)| <= j < size :: data[j] == 'i' as int)
  }

  /** The bytes that do not compress: random ones or, with a seed, the enciphered bytes of the repeated seed. */
  ghost predicate IsSource(env: Env, size: nat, seed: Option<int>, source: Bytes) {
    if Seeded(seed) then exists longs | SeedLongs(longs, seed.value, size) :: source == env.ofb(longs)
    else source == env.urandom(size)
  }

  /** ... as many of them as the ratio leaves, which leave at most size - kept - 3 for the filler. */
  ghost predicate Shaped(data: Bytes, env: Env, size: nat, ratio: int, seed: Option<int>) {
    exists source | IsSource(env, size, seed, source) && env.kept(size, ratio) <= |source| ::
      var raw := source[..env.kept(size, ratio)];
      PrintedThenFilled(data, raw, size) && size - |Repr(raw)| <= size - |raw| - 3
  }

  /**
   Every buffer has exactly the size asked for, whatever the random bytes. Its head is the printed form of
   the first of the bytes that do not compress, however many the doubles say those are, and its tail is filler,
   at least three characters less of it than the compression ratio asks for.
   */
  lemma GenerateExact(env: Env, size: nat, datatype_: int, ratio: int, seed: Option<int>)
    requires Sized(env)
    ensures var r := Generate(env, size, datatype_, ratio, seed);
            r.Ok? ==> ratio >= 1 && Shaped(r.value, env, size, ratio, seed)
  {
    if Generate(env, size, datatype_, ratio, seed).Ok? {
      var source := GeneratedFrom(env, size, datatype_, ratio, seed);
    }
  }

  lemma GeneratedFrom(env: Env, size: nat, datatype_: int, ratio: int, seed: Option<int>) returns (source: Bytes)
    requires Sized(env) && Generate(env, size, datatype_, ratio, seed).Ok?
    ensures ratio >= 1 && IsSource(env, size, seed, source) && env.kept(size, ratio) <= |source|
    ensures Generate(env, size, datatype_, ratio, seed) == Ok(Packed(source[..env.kept(size, ratio)], size))
  {
    if Seeded(seed) {
      var longs := Longs(seed.value, size);
      LongsExact(seed.value, size);
      source := env.ofb(longs);
      assert source[..|longs|] == source;
    } else {
      source := env.urandom(size);
    }
  }

  // ---- writing in chunks ---------------------------------------------------------------------------

  class File {
    /** One entry for each write. */
    var writes: seq<Bytes>

    constructor ()
      ensures writes == []
    {
      writes := [];
    }

    ghost function Contents(): Bytes
      reads this
    {
      Flat(writes)
    }

    method Write(chunk: Bytes)
      modifies this
      ensures writes == old(writes) + [chunk] && Contents() == old(Contents()) + chunk
    {
      FlatLast(writes, chunk);
      writes := writes + [chunk];
    }
  }

  function Flat(writes: seq<Bytes>): Bytes {
    if writes == [] then [] else Flat(writes[..|writes| - 1]) + writes[|writes| - 1]
  }

  lemma FlatLast(writes: seq<Bytes>, chunk: Bytes)
    ensures Flat(writes + [chunk]) == Flat(writes) + chunk
  {
    assert (writes + [chunk])[..|writes|] == writes;
  }

  /** buf[from:] and buf[from:to], clipped at the end of the buffer. */
  function From(buf: Bytes, from: nat): Bytes {
    if from >= |buf| then [] else buf[from..]
  }

  function Slice(buf: Bytes, from: nat, to: nat): Bytes
    requires from <= to
  {
    if from >= |buf| then [] else if to >= |buf| then buf[from..] else buf[from..to]
  }

  function IoSize(size: int): nat {
    if size < 1024 then 1024 else if size < MB then 4096 else 65536
  }

  predicate Chunked(writes: seq<Bytes>, iosize: nat) {
    forall i | 0 <= i < |writes| :: |writes[i]| <= iosize
  }

  /**
   Whatever the buffer's real length and the size passed with it, the file holds the whole buffer, once
   and in order; nothing is written for a negative size. A buffer no longer than the size is written in
   pieces no larger than the chosen chunk.
   */
  method SaveData(fbuf: Bytes, size: int) returns (fd: File)
    ensures fresh(fd) && fd.Contents() == if size < 0 then [] else fbuf
    ensures |fbuf| <= size ==> Chunked(fd.writes, if size < 1024 then 1024 else if size < MB then 4096 else 65536)
  {
    var iosize := IoSize(size);
    fd := new File();
    var off := 0;
    while off <= size
      invariant off == 0 || (0 < off <= size && size >= 1024 && size >= iosize)
      invariant fd.Contents() == Slice(fbuf, 0, off)
      invariant |fbuf| <= size ==> Chunked(fd.writes, iosize)
      decreases size - off
    {
      if size < 1024 || 1024 <= size < iosize {
        fd.Write(fbuf);
        break;
      }
      if off + iosize > size {
        fd.Write(From(fbuf, off));
        break;
      }
      fd.Write(Slice(fbuf, off, off + iosize));
      off := off + iosize;
    }
  }
}
