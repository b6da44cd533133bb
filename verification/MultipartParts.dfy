/** Splitting a file into upload parts, and the checksums made of the parts. */
module MultipartParts {
  import opened Wrappers

  /** One entry of the parts dictionary; a dictionary is the sequence of its entries in insertion order. */
  datatype Part = Part(number: nat, data: Bytes, contentMd5: string)

  const UNALIGNED: seq<nat> :=
    [104857, 209715, 314572, 419430, 524288, 629145, 734003, 838860, 943718, 1048576]

  function Min(a: nat, b: nat): nat { if a < b then a else b }

  /** `read(n)` at this offset. */
  function Read(file: Bytes, off: nat, n: nat): Bytes
    requires off <= |file|
  {
    file[off..Min(off + n, |file|)]
  }

  function Concat(parts: seq<Part>): Bytes {
    if parts == [] then [] else Concat(parts[..|parts| - 1]) + parts[|parts| - 1].data
  }

  /** Numbered from 1, none empty, each with the digest of its own data. */
  ghost predicate WellNumbered(parts: seq<Part>, md5: Bytes -> string) {
    forall i | 0 <= i < |parts| ::
      parts[i].number == i + 1 && parts[i].data != [] && parts[i].contentMd5 == md5(parts[i].data)
  }

  lemma ConcatLast(parts: seq<Part>, p: Part)
    ensures Concat(parts + [p]) == Concat(parts) + p.data
  {
    assert (parts + [p])[..|parts|] == parts;
  }

  // ---- arithmetic --------------------------------------------------------------------------

  lemma PartCount(size: nat, chunk: nat, total: nat, n: nat)
    requires chunk > 0 && total > 0 && ChunksPerPart(size, chunk, total) > 0
    requires var length := chunk * ChunksPerPart(size, chunk, total);
             n > 0 && length * (n - 1) < size <= length * n
    ensures var p := ChunksPerPart(size, chunk, total);
            total <= n <= total + (total + p - 1) / p <= 2 * total
  {
    var q := size / chunk;
    var p := q / total;
    DivisionBounds(size, chunk);
    DivisionBounds(q, total);
    assert total <= n by { FewestParts(size, chunk, total, n, q, p); }
    assert n <= total + (total + p - 1) / p by { MostParts(size, chunk, total, n, q, p); }
    RoundedUp(total, p);
  }

  lemma RoundedUp(total: nat, p: nat)
    requires total > 0 && p > 0
    ensures (total + p - 1) / p <= total
  {
    assert p * (total + 1) == p * total + p;
    MulKeepsOrder(total, 1, p);
    assert total + p - 1 < p * (total + 1);
    DivisionBounds(total + p - 1, p);
    CancelLess(p, (total + p - 1) / p, total + 1);
  }

  lemma FewestParts(size: nat, chunk: nat, total: nat, n: nat, q: nat, p: nat)
    requires p > 0 && chunk > 0 && total * p <= q && chunk * q <= size <= chunk * p * n
    ensures total <= n
  {
    MulKeepsOrder(chunk, total * p, q);
    assert chunk * (total * p) == (chunk * p) * total;
    CancelLess(chunk * p, total, n + 1) by {
      assert chunk * p > 0;
      assert (chunk * p) * (n + 1) == (chunk * p) * n + chunk * p;
    }
  }

  lemma MostParts(size: nat, chunk: nat, total: nat, n: nat, q: nat, p: nat)
    requires p > 0 && chunk > 0 && n > 0 && q < total * (p + 1)
    requires chunk * p * (n - 1) < size < chunk * (q + 1)
    ensures n <= total + (total + p - 1) / p
  {
    MulKeepsOrder(chunk, q + 1, total * (p + 1));
    assert chunk * p * (n - 1) == chunk * (p * (n - 1));
    CancelLess(chunk, p * (n - 1), total * (p + 1));
    assert total * (p + 1) == p * total + total;
    assert p * (n - 1) == p * total + p * (n - 1 - total);
    var c := (total + p - 1) / p;
    DivisionBounds(total + p - 1, p);
    assert p * (c + 1) == p * c + p;
    CancelLess(p, n - 1 - total, c);
  }

  /** All parts but the last are full. */
  lemma {:induction false} FullParts(parts: seq<Part>, length: nat)
    requires forall i | 0 <= i < |parts| :: |parts[i].data| == length
    ensures |Concat(parts)| == length * |parts|
    decreases |parts|
  {
    if parts != [] {
      FullParts(parts[..|parts| - 1], length);
      assert length * |parts| == length * (|parts| - 1) + length;
    }
  }

  lemma LastPart(parts: seq<Part>, length: nat)
    requires parts != [] && 0 < |parts[|parts| - 1].data| <= length
    requires forall i | 0 <= i < |parts| - 1 :: |parts[i].data| == length
    ensures length * (|parts| - 1) < |Concat(parts)| <= length * |parts|
  {
    FullParts(parts[..|parts| - 1], length);
    assert length * |parts| == length * (|parts| - 1) + length;
  }

  // ---- reading the parts -------------------------------------------------------------------

  /** Part size in chunks; the source divides in floating point first. */
  function ChunksPerPart(size: nat, chunk: nat, total: nat): nat
    requires chunk > 0 && total > 0
  {
    size / chunk / total
  }

  /** The length one read asks for: a chunk, with what was drawn on top, times the chunks per part. */
  function ReadLength(chunk: nat, extra: nat, chunks: nat): nat { (chunk + extra) * chunks }

  lemma ReadLengthPositive(chunk: nat, extra: nat, chunks: nat)
    requires chunk > 0
    ensures ReadLength(chunk, extra, chunks) > 0 <==> chunks > 0
  {
    if chunks > 0 { MulKeepsOrder(chunk + extra, 1, chunks); }
  }

  /** The parts read when the file is at this offset. */
  ghost predicate ReadSoFar(file: Bytes, parts: seq<Part>, off: nat, md5: Bytes -> string, length: nat -> nat) {
    && off <= |file| && Concat(parts) == file[..off] && WellNumbered(parts, md5)
    && (forall i | 0 <= i < |parts| :: |parts[i].data| <= length(i + 1))
    && (forall i | 0 <= i < |parts| :: off < |file| || i < |parts| - 1 ==> |parts[i].data| == length(i + 1))
  }

  lemma ReadFurther(file: Bytes, parts: seq<Part>, off: nat, md5: Bytes -> string, length: nat -> nat)
    requires ReadSoFar(file, parts, off, md5, length) && Read(file, off, length(|parts| + 1)) != []
    ensures var data := Read(file, off, length(|parts| + 1));
            ReadSoFar(file, parts + [Part(|parts| + 1, data, md5(data))], off + |data|, md5, length)
  {
    var data := Read(file, off, length(|parts| + 1));
    var p := Part(|parts| + 1, data, md5(data));
    var all := parts + [p];
    ConcatLast(parts, p);
    assert file[..off] + data == file[..off + |data|];
    assert forall i | 0 <= i < |parts| :: all[i] == parts[i];
    assert all[|parts|] == p && (off + |data| < |file| ==> |data| == length(|parts| + 1));
  }

  /** The reading loop: the j-th read asks for length(j) bytes; no read asks for none, or every one does. */
  method ReadParts(file: Bytes, md5: Bytes -> string, length: nat -> nat) returns (parts: seq<Part>)
    requires (forall j :: length(j) > 0) || (forall j :: length(j) == 0)
    ensures WellNumbered(parts, md5)
    ensures Concat(parts) == file <==> length(1) > 0 || file == []
    ensures length(1) == 0 ==> parts == []
    ensures forall i | 0 <= i < |parts| :: |parts[i].data| <= length(i + 1)
    ensures forall i | 0 <= i < |parts| - 1 :: |parts[i].data| == length(i + 1)
  {
    var off, j := 0, 1;
    parts := [];
    while true
      invariant ReadSoFar(file, parts, off, md5, length) && j == |parts| + 1
      invariant length(1) == 0 ==> parts == []
      decreases |file| - off
    {
      var data := Read(file, off, length(j));
      if data == [] { break; }
      ReadFurther(file, parts, off, md5, length);
      parts := parts + [Part(j, data, md5(data))];
      off, j := off + |data|, j + 1;
    }
    assert length(j) > 0 ==> file[..off] == file;
  }

  /**
   Every part but the last has the full length.  The file is lost - no part is made - exactly when it
   holds fewer chunks than parts were asked for.
   */
  method GetAlignedParts(file: Bytes, total: nat, chunk: nat, md5: Bytes -> string) returns (parts: seq<Part>)
    requires chunk > 0 && total > 0
    ensures WellNumbered(parts, md5)
    ensures Concat(parts) == file <==> ChunksPerPart(|file|, chunk, total) > 0 || file == []
    ensures ChunksPerPart(|file|, chunk, total) == 0 ==> parts == []
    ensures forall i | 0 <= i < |parts| - 1 :: |parts[i].data| == chunk * ChunksPerPart(|file|, chunk, total)
    ensures var p := ChunksPerPart(|file|, chunk, total);
            p > 0 ==> total <= |parts| <= total + (total + p - 1) / p <= 2 * total
  {
    var p := ChunksPerPart(|file|, chunk, total);
    var length := ReadLength(chunk, 0, p);
    ReadLengthPositive(chunk, 0, p);
    parts := ReadParts(file, md5, _ => length);
    if p > 0 {
      assert parts != [] by { NotEmptyFile(|file|, chunk, total); }
      LastPart(parts, length);
      PartCount(|file|, chunk, total, |parts|);
    }
  }

  lemma NotEmptyFile(size: nat, chunk: nat, total: nat)
    requires chunk > 0 && total > 0 && ChunksPerPart(size, chunk, total) > 0
    ensures size > 0
  {
    DivisionBounds(size, chunk);
    DivisionBounds(size / chunk, total);
  }

  /** Unaligned parts draw an extra length for each read; whatever is drawn, the parts make up the file. */
  method GetUnalignedParts(file: Bytes, total: nat, chunk: nat, md5: Bytes -> string, drawn: nat -> nat)
    returns (parts: seq<Part>)
    requires chunk > 0 && total > 0
    requires forall j :: drawn(j) in UNALIGNED
    ensures WellNumbered(parts, md5)
    ensures Concat(parts) == file <==> ChunksPerPart(|file|, chunk, total) > 0 || file == []
    ensures forall i | 0 <= i < |parts| - 1 ::
              |parts[i].data| == ReadLength(chunk, drawn(i + 1), ChunksPerPart(|file|, chunk, total))
  {
    var p := ChunksPerPart(|file|, chunk, total);
    forall j: nat ensures ReadLength(chunk, drawn(j), p) > 0 <==> p > 0 {
      ReadLengthPositive(chunk, drawn(j), p);
    }
    parts := ReadParts(file, md5, (j: nat) => ReadLength(chunk, drawn(j), p));
  }

  function Sum(lengths: seq<nat>): nat {
    if lengths == [] then 0 else Sum(lengths[..|lengths| - 1]) + lengths[|lengths| - 1]
  }

  lemma SumNext(lengths: seq<nat>, i: nat)
    requires i < |lengths|
    ensures Sum(lengths[..i + 1]) == Sum(lengths[..i]) + lengths[i]
  {
    assert lengths[..i + 1][..i] == lengths[..i];
  }

  /**
   Parts of given lengths - each size times the chunk - in whatever order they were shuffled to: they
   cover as much of the file as the lengths add up to.
   */
  method GetPrecalculatedParts(file: Bytes, lengths: seq<nat>, md5: Bytes -> string) returns (parts: seq<Part>)
    ensures |parts| == |lengths|
    ensures forall i | 0 <= i < |parts| :: parts[i].number == i + 1 && parts[i].contentMd5 == md5(parts[i].data)
    ensures Concat(parts) == file[..Min(Sum(lengths), |file|)]
    ensures Concat(parts) == file <==> Sum(lengths) >= |file|
  {
    parts := [];
    var off := 0;
    for i := 0 to |lengths|
      invariant |parts| == i && off == Min(Sum(lengths[..i]), |file|)
      invariant Concat(parts) == file[..off]
      invariant forall k | 0 <= k < i :: parts[k].number == k + 1 && parts[k].contentMd5 == md5(parts[k].data)
    {
      var data := Read(file, off, lengths[i]);
      SumNext(lengths, i);
      parts := parts + [Part(i + 1, data, md5(data))];
      off := off + |data|;
    }
    assert lengths[..|lengths|] == lengths;
  }

  // ---- checksums ---------------------------------------------------------------------------

  /** The parts in the order of their numbers. */
  function Sorted(parts: seq<Part>): seq<Part> {
    if parts == [] then [] else Inserted(Sorted(parts[1..]), parts[0])
  }

  function Inserted(parts: seq<Part>, p: Part): seq<Part> {
    if parts == [] || p.number <= parts[0].number then [p] + parts else [parts[0]] + Inserted(parts[1..], p)
  }

  function Glued(pieces: seq<Bytes>): Bytes {
    if pieces == [] then [] else Glued(pieces[..|pieces| - 1]) + pieces[|pieces| - 1]
  }

  function Digests(pieces: seq<Bytes>, digest: Bytes -> Bytes): (ds: seq<Bytes>)
    ensures DigestEach(ds, pieces, digest)
  {
    seq(|pieces|, i requires 0 <= i < |pieces| => digest(pieces[i]))
  }

  /** One digest for each piece, in the order of the pieces. */
  ghost predicate DigestEach(ds: seq<Bytes>, pieces: seq<Bytes>, digest: Bytes -> Bytes) {
    |ds| == |pieces| && forall i | 0 <= i < |pieces| :: ds[i] == digest(pieces[i])
  }

  function Contents(parts: seq<Part>): seq<Bytes> {
    seq(|parts|, i requires 0 <= i < |parts| => parts[i].data)
  }

  /** Digest of the digests, in part order, with the number of parts; `write` renders digest and count. */
  function MultipartEtag(parts: seq<Part>, md5: Bytes -> Bytes, write: (Bytes, nat) -> string): string {
    write(md5(Glued(Digests(Contents(Sorted(parts)), md5))), |Sorted(parts)|)
  }

  ghost predicate Ascending(parts: seq<Part>) {
    forall i, j | 0 <= i < j < |parts| :: parts[i].number <= parts[j].number
  }

  /** A number names one part, as the keys of a dictionary do. */
  ghost predicate NumbersName(parts: seq<Part>) {
    forall p, q | p in parts && q in parts && p.number == q.number :: p == q
  }

  lemma {:induction false} InsertedKeeps(parts: seq<Part>, p: Part)
    ensures multiset(Inserted(parts, p)) == multiset(parts) + multiset{p}
    ensures forall q :: q in Inserted(parts, p) <==> q in parts || q == p
  {
    if parts != [] && p.number > parts[0].number {
      InsertedKeeps(parts[1..], p);
      assert parts == [parts[0]] + parts[1..];
    }
  }

  lemma AscendingCons(p: Part, rest: seq<Part>)
    requires Ascending(rest) && forall q | q in rest :: p.number <= q.number
    ensures Ascending([p] + rest)
  {
  }

  lemma {:induction false} InsertedSorts(parts: seq<Part>, p: Part)
    requires Ascending(parts)
    ensures Ascending(Inserted(parts, p))
  {
    if parts == [] || p.number <= parts[0].number {
      AscendingCons(p, parts);
    } else {
      InsertedSorts(parts[1..], p);
      InsertedKeeps(parts[1..], p);
      AscendingCons(parts[0], Inserted(parts[1..], p));
    }
  }

  lemma {:induction false} SortedSorts(parts: seq<Part>)
    ensures Ascending(Sorted(parts)) && multiset(Sorted(parts)) == multiset(parts)
  {
    if parts != [] {
      SortedSorts(parts[1..]);
      InsertedSorts(Sorted(parts[1..]), parts[0]);
      InsertedKeeps(Sorted(parts[1..]), parts[0]);
      assert parts == [parts[0]] + parts[1..];
    }
  }

  lemma SameFirst(a: seq<Part>, b: seq<Part>)
    requires Ascending(a) && Ascending(b) && multiset(a) == multiset(b) && NumbersName(a) && a != []
    ensures b != [] && a[0] == b[0]
  {
    assert |multiset(b)| == |multiset(a)|;
    assert a[0] in multiset(b) && b[0] in multiset(a);
    var i :| 0 <= i < |a| && a[i] == b[0];
    var j :| 0 <= j < |b| && b[j] == a[0];
  }

  lemma RestOf(a: seq<Part>)
    requires a != []
    ensures multiset(a[1..]) == multiset(a) - multiset{a[0]}
  {
    assert a == [a[0]] + a[1..];
  }

  /** Two ascending arrangements of the same distinctly numbered parts are the same. */
  lemma {:induction false} AscendingIsUnique(a: seq<Part>, b: seq<Part>)
    requires Ascending(a) && Ascending(b) && multiset(a) == multiset(b) && NumbersName(a)
    ensures a == b
    decreases |a|
  {
    if a == [] {
      assert |multiset(b)| == 0;
    } else {
      SameFirst(a, b);
      RestOf(a);
      RestOf(b);
      AscendingIsUnique(a[1..], b[1..]);
    }
  }

  /** The ETag does not depend on the order of the dictionary. */
  lemma EtagIgnoresOrder(a: seq<Part>, b: seq<Part>, md5: Bytes -> Bytes, write: (Bytes, nat) -> string)
    requires multiset(a) == multiset(b) && NumbersName(a)
    ensures MultipartEtag(a, md5, write) == MultipartEtag(b, md5, write)
  {
    SortedSorts(a);
    SortedSorts(b);
    assert forall p :: p in Sorted(a) <==> p in multiset(Sorted(a));
    AscendingIsUnique(Sorted(a), Sorted(b));
  }

  /** One part's digest after the other, by ascending part number. */
  ghost predicate DigestsByNumber(parts: seq<Part>, sorted: seq<Part>, ds: seq<Bytes>, md5: Bytes -> Bytes) {
    && Ascending(sorted) && multiset(sorted) == multiset(parts)
    && |ds| == |sorted| && forall i | 0 <= i < |sorted| :: ds[i] == md5(sorted[i].data)
  }

  /** Their digest, with the number of parts. */
  ghost predicate IsEtag(etag: string, parts: seq<Part>, md5: Bytes -> Bytes, write: (Bytes, nat) -> string) {
    exists sorted, ds | DigestsByNumber(parts, sorted, ds, md5) :: etag == write(md5(Glued(ds)), |parts|)
  }

  lemma SortedDigests(parts: seq<Part>, md5: Bytes -> Bytes)
    ensures DigestsByNumber(parts, Sorted(parts), Digests(Contents(Sorted(parts)), md5), md5)
  {
    SortedSorts(parts);
  }

  lemma SameDigests(parts: seq<Part>, sorted: seq<Part>, ds: seq<Bytes>, other: seq<Part>, es: seq<Bytes>, md5: Bytes -> Bytes)
    requires NumbersName(parts)
    requires DigestsByNumber(parts, sorted, ds, md5) && DigestsByNumber(parts, other, es, md5)
    ensures ds == es && |ds| == |parts|
  {
    assert forall p :: p in sorted <==> p in multiset(sorted);
    AscendingIsUnique(sorted, other);
    assert |multiset(sorted)| == |multiset(parts)|;
  }

  /** Distinctly numbered parts have this one ETag, whatever their order. */
  lemma EtagExact(parts: seq<Part>, md5: Bytes -> Bytes, write: (Bytes, nat) -> string, etag: string)
    requires NumbersName(parts)
    ensures IsEtag(etag, parts, md5, write) <==> etag == MultipartEtag(parts, md5, write)
  {
    var sorted := Sorted(parts);
    var ds := Digests(Contents(sorted), md5);
    SortedDigests(parts, md5);
    SameDigests(parts, sorted, ds, sorted, ds, md5);
    forall other, es | DigestsByNumber(parts, other, es, md5) ensures es == ds {
      SameDigests(parts, sorted, ds, other, es, md5);
    }
  }

  /** The pieces digested when the file is at this offset. */
  ghost predicate Digested(file: Bytes, pieces: seq<Bytes>, off: nat, length: nat, digests: Bytes, sha: Bytes -> Bytes) {
    && off <= |file| && Glued(pieces) == file[..off] && digests == Glued(Digests(pieces, sha))
    && FullButLast(pieces, off == |file|, length)
  }

  /** None is empty, and all have the full length, except that the last of the file may be shorter. */
  ghost predicate FullButLast(pieces: seq<Bytes>, atEnd: bool, length: nat) {
    && (forall i | 0 <= i < |pieces| :: 0 < |pieces[i]| <= length)
    && (forall i | 0 <= i < |pieces| :: !atEnd || i < |pieces| - 1 ==> |pieces[i]| == length)
  }

  lemma OneMorePiece(pieces: seq<Bytes>, piece: Bytes, atEnd: bool, length: nat)
    requires FullButLast(pieces, false, length) && 0 < |piece| <= length && (!atEnd ==> |piece| == length)
    ensures FullButLast(pieces + [piece], atEnd, length)
  {
  }

  lemma {:induction false} FullPieces(pieces: seq<Bytes>, length: nat)
    requires forall i | 0 <= i < |pieces| :: |pieces[i]| == length
    ensures |Glued(pieces)| == |pieces| * length
    decreases |pieces|
  {
    if pieces != [] {
      FullPieces(pieces[..|pieces| - 1], length);
      assert |pieces| * length == (|pieces| - 1) * length + length;
    }
  }

  lemma PieceCount(pieces: seq<Bytes>, length: nat)
    requires pieces != [] && 0 < |pieces[|pieces| - 1]| <= length
    requires forall i | 0 <= i < |pieces| - 1 :: |pieces[i]| == length
    ensures |pieces| == (|Glued(pieces)| + length - 1) / length
  {
    FullPieces(pieces[..|pieces| - 1], length);
    assert |pieces| * length == (|pieces| - 1) * length + length;
    CeilingIs(|Glued(pieces)|, length, |pieces|);
  }

  lemma GluedLast(pieces: seq<Bytes>, piece: Bytes)
    ensures Glued(pieces + [piece]) == Glued(pieces) + piece
  {
    assert (pieces + [piece])[..|pieces|] == pieces;
  }

  lemma NextPiece(file: Bytes, pieces: seq<Bytes>, off: nat, length: nat, digests: Bytes, sha: Bytes -> Bytes)
    requires Digested(file, pieces, off, length, digests, sha) && off < |file| && length > 0
    ensures var chunk := Read(file, off, length);
            Digested(file, pieces + [chunk], off + |chunk|, length, digests + sha(chunk), sha)
  {
    var chunk := Read(file, off, length);
    GluedLast(pieces, chunk);
    NextDigest(pieces, chunk, sha);
    OneMorePiece(pieces, chunk, off + |chunk| == |file|, length);
    assert file[..off] + chunk == file[..off + |chunk|];
  }

  lemma NextDigest(pieces: seq<Bytes>, piece: Bytes, sha: Bytes -> Bytes)
    ensures Glued(Digests(pieces + [piece], sha)) == Glued(Digests(pieces, sha)) + sha(piece)
  {
    GluedLast(Digests(pieces, sha), sha(piece));
    assert Digests(pieces + [piece], sha) == Digests(pieces, sha) + [sha(piece)];
  }

  method DigestPieces(file: Bytes, length: nat, sha: Bytes -> Bytes)
    returns (digests: Bytes, count: nat, ghost pieces: seq<Bytes>)
    requires 0 < length < |file|
    ensures Digested(file, pieces, |file|, length, digests, sha) && count == |pieces| > 0
  {
    var off := 0;
    digests, count, pieces := [], 0, [];
    while off < |file|
      invariant Digested(file, pieces, off, length, digests, sha)
      invariant count == |pieces| && (off > 0 ==> count > 0)
    {
      var chunk := Read(file, off, length);
      NextPiece(file, pieces, off, length, digests, sha);
      digests, count, off, pieces := digests + sha(chunk), count + 1, off + |chunk|, pieces + [chunk];
    }
  }

  /** What is digested: consecutive pieces of a file longer than one, else the file itself. */
  ghost predicate PiecesOf(file: Bytes, partSize: nat, pieces: seq<Bytes>) {
    && Glued(pieces) == file
    && if partSize > 0 && |file| > partSize then
         && |pieces| == (|file| + partSize - 1) / partSize
         && forall i | 0 <= i < |pieces| - 1 :: |pieces[i]| == partSize
       else pieces == [file]
  }

  /** calc_checksum: the digest of the digests of the pieces, with their number. */
  method CalcChecksum(file: Bytes, partSize: nat, sha: Bytes -> Bytes, write: (Bytes, nat) -> string)
    returns (checksum: string)
    ensures exists pieces, ds :: && PiecesOf(file, partSize, pieces) && DigestEach(ds, pieces, sha)
                                 && checksum == write(sha(Glued(ds)), |pieces|)
  {
    var digests: Bytes, count;
    ghost var pieces;
    if partSize > 0 && |file| > partSize {
      digests, count, pieces := DigestPieces(file, partSize, sha);
      LongFile(file, partSize, pieces, digests, sha);
    } else {
      digests, count, pieces := sha(file), 1, [file];
      OnePiece(file, sha);
    }
    checksum := write(sha(digests), count);
    assert DigestEach(Digests(pieces, sha), pieces, sha);
  }

  lemma LongFile(file: Bytes, partSize: nat, pieces: seq<Bytes>, digests: Bytes, sha: Bytes -> Bytes)
    requires 0 < partSize < |file| && pieces != [] && Digested(file, pieces, |file|, partSize, digests, sha)
    ensures PiecesOf(file, partSize, pieces)
  {
    assert file[..|file|] == file;
    PieceCount(pieces, partSize);
  }

  lemma OnePiece(file: Bytes, sha: Bytes -> Bytes)
    ensures Glued([file]) == file && Glued(Digests([file], sha)) == sha(file)
  {
    GluedLast([], file);
    GluedLast([], sha(file));
    assert [] + [file] == [file] && Digests([file], sha) == [] + [sha(file)];
  }

  lemma CeilingIs(size: nat, d: nat, n: nat)
    requires d > 0 && n > 0 && (n - 1) * d < size <= n * d
    ensures n == (size + d - 1) / d
  {
    var c := (size + d - 1) / d;
    DivisionBounds(size + d - 1, d);
    assert d * (c + 1) == d * c + d && n * d == d * n && (n - 1) * d == d * (n - 1);
    CancelLess(d, n - 1, c);
    assert d * c < d * (n + 1) by { assert d * (n + 1) == d * n + d; }
    CancelLess(d, c, n + 1);
  }
}
