/** `ItemResponse` of src/server/response.cpp: which response an item request gets, and the bytes
    the chunked reader hands out for it. */
module ItemResponse {
  import opened Seqs
  import opened ByteRange
  import opened Numbers

  const TWO_31 := 0x8000_0000
  const TWO_32 := 0x1_0000_0000
  const TWO_64 := 0x1_0000_0000_0000_0000

  type Bytes = seq<bv8>

  /** Conversion to `int`, which keeps the low 32 bits. */
  function ToInt32(x: int): (r: int)
    ensures -TWO_31 <= r < TWO_31
    ensures r == x <==> -TWO_31 <= x < TWO_31
  {
    var low := x % TWO_32;
    if low < TWO_31 then low else low - TWO_32
  }

  /** Conversion to an unsigned 64-bit type. */
  function ToSize(x: int): (r: nat)
    ensures r < TWO_64
    ensures 0 <= x < TWO_64 ==> r == x
  {
    if 0 <= x < TWO_64 then x else x % TWO_64
  }

  // ---- The reader ------------------------------------------------------------

  /** One call of the reader: bytes, `MHD_CONTENT_READER_END_WITH_ERROR`, or a request for bytes
      the item does not have. */
  datatype Outcome = Data(bytes: Bytes) | EndWithError | OutOfItem

  function ReadAt(item: Bytes, rangeStart: int, pos: nat, max: nat): Outcome {
    var left := ToSize(|item| - pos - rangeStart);
    var n := if left < max then left else max;
    var offset := ToSize(rangeStart + pos);
    if n == 0 then EndWithError
    else if offset + n > |item| then OutOfItem
    else Data(item[offset..offset + n])
  }

  class RunningResponse {
    const item: Bytes
    const rangeStart: int

    /** `range_start` is an `int`. */
    constructor (item: Bytes, first: int64)
      ensures this.item == item && rangeStart == ToInt32(first as int)
    {
      this.item := item;
      this.rangeStart := ToInt32(first as int);
    }

    /** `callback_reader_from_item` */
    method Read(pos: nat, buf: array<bv8>, max: nat) returns (r: Outcome)
      requires max <= buf.Length
      modifies buf
      ensures r == ReadAt(item, rangeStart, pos, max)
      ensures r.Data? ==> |r.bytes| <= max && buf[..] == r.bytes + old(buf[|r.bytes|..])
      ensures !r.Data? ==> buf[..] == old(buf[..])
    {
      var maxSizeToSet := ToSize(|item| - pos - rangeStart);
      if max < maxSizeToSet {
        maxSizeToSet := max;
      }
      if maxSizeToSet == 0 {
        return EndWithError;
      }
      var offset := ToSize(rangeStart + pos);
      if offset + maxSizeToSet > |item| {
        return OutOfItem;
      }
      var blob := item[offset..offset + maxSizeToSet];
      forall k | 0 <= k < maxSizeToSet {
        buf[k] := blob[k];
      }
      return Data(blob);
    }
  }

  /** The bytes of successive calls with the given buffer sizes, starting at `pos`; None once a
      call yields none. */
  function Chunks(item: Bytes, rangeStart: int, sizes: seq<nat>, pos: nat): Option<Bytes>
    decreases sizes
  {
    if sizes == [] then Some([]) else
      var r := ReadAt(item, rangeStart, pos, sizes[0]);
      if !r.Data? then None else
        var rest := Chunks(item, rangeStart, sizes[1..], pos + |r.bytes|);
        if rest.None? then None else Some(r.bytes + rest.value)
  }

  function Sum(sizes: seq<nat>): nat {
    if sizes == [] then 0 else sizes[0] + Sum(sizes[1..])
  }

  ghost predicate Positive(sizes: seq<nat>) {
    forall i | 0 <= i < |sizes| :: sizes[i] > 0
  }

  /** A call inside the item. */
  lemma ReadsInside(item: Bytes, first: nat, pos: nat, n: nat, at: nat, end: nat)
    requires at == first + pos && end == at + n && n > 0 && end <= |item| <= INT64_MAX
    ensures ReadAt(item, first, pos, n) == Data(item[at..end])
  {
  }

  lemma Adjacent(item: Bytes, i: nat, j: nat, k: nat)
    requires i <= j <= k <= |item|
    ensures item[i..j] + item[j..k] == item[i..k]
  {
  }

  /** However the slice is cut into chunks, they concatenate to it. */
  lemma {:induction false} ChunksAreSlice(item: Bytes, first: nat, sizes: seq<nat>, pos: nat, at: nat, end: nat)
    requires at == first + pos && end == at + Sum(sizes) && end <= |item| <= INT64_MAX && Positive(sizes)
    ensures Chunks(item, first, sizes, pos) == Some(item[at..end])
    decreases sizes
  {
    if sizes == [] {
      assert item[at..at] == [];
    } else {
      var n := sizes[0];
      var mid := at + n;
      ReadsInside(item, first, pos, n, at, mid);
      ChunksAreSlice(item, first, sizes[1..], pos + n, mid, end);
      Adjacent(item, at, mid, end);
      ChunksStep(item, first, sizes, pos, item[at..mid], item[mid..end]);
    }
  }

  lemma ChunksStep(item: Bytes, rangeStart: int, sizes: seq<nat>, pos: nat, chunk: Bytes, rest: Bytes)
    requires sizes != [] && ReadAt(item, rangeStart, pos, sizes[0]) == Data(chunk)
    requires Chunks(item, rangeStart, sizes[1..], pos + |chunk|) == Some(rest)
    ensures Chunks(item, rangeStart, sizes, pos) == Some(chunk + rest)
  {
  }

  /** Does the reader hand out the slice `first..last`, for every item of this size and every
      chunking? */
  ghost predicate ReaderIsExact(first: nat, last: nat, size: nat)
    requires first <= last < size
  {
    forall item: Bytes, sizes: seq<nat> | |item| == size && Positive(sizes) && Sum(sizes) == last + 1 - first ::
      Chunks(item, ToInt32(first), sizes, 0) == Some(item[first..last + 1])
  }

  /** Exactly the ranges that start below 2^31 are served correctly; `range_start` loses the high
      bits of any other. */
  lemma ReaderIsExactIff(first: nat, last: nat, size: nat)
    requires first <= last < size <= INT64_MAX
    ensures ReaderIsExact(first, last, size) <==> first < TWO_31
  {
    if first < TWO_31 {
      forall item: Bytes, sizes: seq<nat> | |item| == size && Positive(sizes) && Sum(sizes) == last + 1 - first
        ensures Chunks(item, ToInt32(first), sizes, 0) == Some(item[first..last + 1])
      {
        ChunksAreSlice(item, first, sizes, 0, first, last + 1);
      }
    } else {
      ReaderMisses(first, last, size);
    }
  }

  /** An item of zeros but for a one where the range starts: its first byte is not the one. */
  lemma ReaderMisses(first: nat, last: nat, size: nat)
    requires TWO_31 <= first <= last < size <= INT64_MAX
    ensures !ReaderIsExact(first, last, size)
  {
    var item: Bytes := seq(size, i => if i == first then 1 else 0);
    var n: nat := last + 1 - first;
    var sizes: seq<nat> := [n];
    var r := ReadAt(item, ToInt32(first), 0, n);
    assert Sum(sizes) == n && Sum(sizes[1..]) == 0;
    assert ToInt32(first) < first;
    if r.Data? {
      assert Chunks(item, ToInt32(first), [], |r.bytes|) == Some([]);
      assert r.bytes[0] == 0 && item[first..last + 1][0] == 1;
    }
    assert Chunks(item, ToInt32(first), sizes, 0) != Some(item[first..last + 1]);
  }

  // ---- The response ----------------------------------------------------------

  datatype Response =
    | Whole(content: Bytes, range: Range)
    | Streamed(range: Range)
    | RangeNotSatisfiable(size: nat)

  /** `ItemResponse::build` */
  function Build(requested: Range, item: Bytes, compressible: bool): Response
    requires requested.Valid() && requested.kind in {NONE, INVALID, PARSED} && |item| <= INT64_MAX
  {
    var range := Resolve(requested, |item| as int64);
    if range.kind == RESOLVED_FULL_CONTENT && compressible then Whole(item, range)
    else if range.kind == RESOLVED_UNSATISFIABLE then RangeNotSatisfiable(|item|)
    else Streamed(range)
  }

  /** The status code `send` queues. */
  function StatusCode(response: Response): nat {
    match response
    case RangeNotSatisfiable(_) => 416
    case Whole(_, range) => if range.kind == RESOLVED_PARTIAL_CONTENT then 206 else 200
    case Streamed(range) => if range.kind == RESOLVED_PARTIAL_CONTENT then 206 else 200
  }

  /** Buffer sizes that fill a body of `length` bytes. */
  ghost predicate Fills(sizes: seq<nat>, length: int) {
    Positive(sizes) && Sum(sizes) == length
  }

  /** The body sent when the reader is called with the given buffer sizes. */
  function Body(response: Response, item: Bytes, sizes: seq<nat>): Option<Bytes> {
    match response
    case RangeNotSatisfiable(_) => Some([])
    case Whole(content, _) => Some(content)
    case Streamed(range) => Chunks(item, ToInt32(range.first as int), sizes, 0)
  }

  /** A request without `Range` gets the whole item with status 200, in either form. */
  lemma PlainRequest(item: Bytes, compressible: bool, sizes: seq<nat>)
    requires |item| <= INT64_MAX && Fills(sizes, |item|)
    ensures var response := Build(NO_RANGE, item, compressible);
            StatusCode(response) == 200 && Body(response, item, sizes) == Some(item)
  {
    ChunksAreSlice(item, 0, sizes, 0, 0, |item|);
    assert item[0..|item|] == item;
  }

  /** A range request: 416 if the specification selects nothing, otherwise 206 with exactly the
      selected positions as the body, provided the reader can count to the first of them. */
  lemma RangeRequest(spec: Spec, item: Bytes, compressible: bool, sizes: seq<nat>)
    requires WellFormed(spec) && |item| <= INT64_MAX
    requires spec.Suffix? ==> Value(spec.length) != -INT64_MIN
    requires !SuffixTooLong(spec, |item|)
    ensures var r := Parsed(SpecText(spec)); r.Valid() && r.kind in {INVALID, PARSED}
    ensures var response := Build(Parsed(SpecText(spec)), item, compressible);
            if exists i :: Selects(spec, |item|, i) then
              response.Streamed? && StatusCode(response) == 206 && IsSlice(spec, item, response.range, sizes)
            else
              StatusCode(response) == 416
  {
    MeetsRfc(spec, |item|);
    var range := Resolve(Parsed(SpecText(spec)), |item| as int64);
    if exists i :: Selects(spec, |item|, i) {
      SliceServed(spec, item, range, sizes);
    }
  }

  lemma SliceServed(spec: Spec, item: Bytes, range: Range, sizes: seq<nat>)
    requires |item| <= INT64_MAX && range.kind == RESOLVED_PARTIAL_CONTENT
    requires 0 <= range.first <= range.last && range.last as int < |item|
    requires Meets(spec, |item|, range)
    ensures IsSlice(spec, item, range, sizes)
  {
    if range.first as int < TWO_31 {
      StreamedSlice(item, range, sizes);
    }
  }

  lemma StreamedSlice(item: Bytes, range: Range, sizes: seq<nat>)
    requires |item| <= INT64_MAX && 0 <= range.first <= range.last && range.last as int < |item|
    requires range.first as int < TWO_31
    ensures var first, last := range.first as int, range.last as int;
            Fills(sizes, last + 1 - first) ==> Body(Streamed(range), item, sizes) == Some(item[first..last + 1])
  {
    var first, last := range.first as int, range.last as int;
    if Fills(sizes, last + 1 - first) {
      ChunksAreSlice(item, first, sizes, 0, first, last + 1);
    }
  }

  /** `range` holds the selected positions, and a reader within its counting range sends them. */
  ghost predicate IsSlice(spec: Spec, item: Bytes, range: Range, sizes: seq<nat>) {
    var first, last := range.first as int, range.last as int;
    && (forall i: int :: Selects(spec, |item|, i) <==> first <= i <= last)
    && 0 <= first <= last < |item|
    && (first < TWO_31 && Fills(sizes, last + 1 - first)
        ==> Body(Streamed(range), item, sizes) == Some(item[first..last + 1]))
  }
}
