/**
  The smaller list of chunks that has the same effect as writing some bytes: what it means
  for a list of chunks to be that list, and how it is grown byte by byte.
 */
module DeltaBytes {
  import opened Wrappers
  import opened RangeMaps
  import opened MemoryTypes

  /** So many equal bytes after a differing one start a new chunk. */
  const MIN_SKIP_OVER_BYTES: nat := 8 * 2 - 1

  /** The byte at `a` is to be written and is not known to have that value already. */
  predicate Differs(known: ByteMap, b: MemoryBytes, a: nat) {
    b.Has(a) && (a !in known || known[a] != b.ByteAt(a))
  }

  ghost predicate AllDiffer(known: ByteMap, b: MemoryBytes, from: nat, to: nat) {
    forall a | from <= a < to :: Differs(known, b, a)
  }

  /** Some byte differs among those from `w` on that might be skipped together. */
  ghost predicate Window(known: ByteMap, b: MemoryBytes, w: nat) {
    exists a :: w <= a < w + MIN_SKIP_OVER_BYTES && Differs(known, b, a)
  }

  /** `[lo, hi)` starts and ends on a differing byte, and holds no stretch that is long enough to be skipped. */
  ghost predicate Tight(known: ByteMap, b: MemoryBytes, lo: nat, hi: nat) {
    && lo < hi
    && Differs(known, b, lo)
    && Differs(known, b, hi - 1)
    && forall w | lo <= w <= hi - MIN_SKIP_OVER_BYTES :: Window(known, b, w)
  }

  predicate SliceOf(b: MemoryBytes, c: MemoryBytes) {
    c.Valid() && b.start <= c.start && c.Limit() <= b.Limit() && c == b.Range(c.start, c.Limit())
  }

  predicate AllSlices(b: MemoryBytes, chunks: seq<MemoryBytes>) {
    forall i | 0 <= i < |chunks| :: SliceOf(b, chunks[i])
  }

  ghost predicate AllTight(known: ByteMap, b: MemoryBytes, chunks: seq<MemoryBytes>) {
    forall i | 0 <= i < |chunks| :: Tight(known, b, chunks[i].start, chunks[i].Limit())
  }

  predicate Within(chunks: seq<MemoryBytes>, from: nat, upTo: nat) {
    forall i | 0 <= i < |chunks| :: from <= chunks[i].start && chunks[i].Limit() <= upTo
  }

  /** The gaps between chunks are long enough to be skipped. */
  predicate Spaced(chunks: seq<MemoryBytes>) {
    forall i, j | 0 <= i < j < |chunks| :: chunks[i].Limit() + MIN_SKIP_OVER_BYTES <= chunks[j].start
  }

  /** Everything that differs is in some chunk. */
  ghost predicate Complete(known: ByteMap, b: MemoryBytes, from: nat, upTo: nat, chunks: seq<MemoryBytes>) {
    forall a {:trigger InSome(chunks, a)} | from <= a < upTo && Differs(known, b, a) :: InSome(chunks, a)
  }

  /** The chunks for the bytes in `[from, upTo)`. */
  ghost predicate IsDelta(known: ByteMap, b: MemoryBytes, from: nat, upTo: nat, chunks: seq<MemoryBytes>) {
    && AllSlices(b, chunks)
    && AllTight(known, b, chunks)
    && Within(chunks, from, upTo)
    && Spaced(chunks)
    && Complete(known, b, from, upTo, chunks)
  }

  /** The delta of all the bytes. */
  ghost predicate IsFullDelta(known: ByteMap, b: MemoryBytes, chunks: seq<MemoryBytes>) {
    IsDelta(known, b, b.start, b.Limit(), chunks)
  }

  // ----- growing -----

  function Chunks(result: seq<MemoryBytes>, chunk: Option<MemoryBytes>): seq<MemoryBytes> {
    if chunk.Some? then result + [chunk.value] else result
  }

  /** Passing an equal byte changes nothing. */
  lemma PassEqual(known: ByteMap, b: MemoryBytes, from: nat, upTo: nat, chunks: seq<MemoryBytes>)
    requires IsDelta(known, b, from, upTo, chunks) && !Differs(known, b, upTo)
    ensures IsDelta(known, b, from, upTo + 1, chunks)
  {}

  lemma TightStretch(known: ByteMap, b: MemoryBytes, lo: nat, hi: nat)
    requires lo < hi && AllDiffer(known, b, lo, hi)
    ensures Tight(known, b, lo, hi)
  {
    forall w | lo <= w <= hi - MIN_SKIP_OVER_BYTES
      ensures Window(known, b, w)
    {
      assert Differs(known, b, w);
    }
  }

  /** A tight stretch stays tight when it grows over a short gap. */
  lemma TightGrows(known: ByteMap, b: MemoryBytes, lo: nat, hi: nat, addr: nat, hi': nat)
    requires Tight(known, b, lo, hi) && hi <= addr < hi + MIN_SKIP_OVER_BYTES
    requires addr < hi' && AllDiffer(known, b, addr, hi')
    ensures Tight(known, b, lo, hi')
  {
    forall w | lo <= w <= hi' - MIN_SKIP_OVER_BYTES
      ensures Window(known, b, w)
    {
      if w + MIN_SKIP_OVER_BYTES > addr {
        assert Differs(known, b, if w > addr then w else addr);
      } else if w + MIN_SKIP_OVER_BYTES > hi {
        assert Differs(known, b, hi - 1);
      }
    }
  }

  lemma CompleteGrows(known: ByteMap, b: MemoryBytes, from: nat, addr: nat, upTo: nat,
                      chunks: seq<MemoryBytes>, next: seq<MemoryBytes>)
    requires Complete(known, b, from, addr, chunks)
    requires next != [] && next[|next| - 1].start <= addr && upTo <= next[|next| - 1].Limit()
    requires forall a | InSome(chunks, a) :: InSome(next, a)
    ensures Complete(known, b, from, upTo, next)
  {}

  lemma ChunkSlice(b: MemoryBytes, lo: nat, hi: nat)
    requires b.start <= lo < hi <= b.Limit()
    ensures SliceOf(b, b.Range(lo, hi))
  {}

  /** Starting a new chunk, after a gap that is long enough. */
  lemma AddChunk(known: ByteMap, b: MemoryBytes, from: nat, addr: nat, hi: nat, chunks: seq<MemoryBytes>,
                 next: seq<MemoryBytes>)
    requires IsDelta(known, b, from, addr, chunks) && from <= addr
    requires b.start <= addr < hi <= b.Limit() && AllDiffer(known, b, addr, hi)
    requires chunks != [] ==> addr >= MIN_SKIP_OVER_BYTES && Within(chunks, from, addr - MIN_SKIP_OVER_BYTES)
    requires next == chunks + [b.Range(addr, hi)]
    ensures IsDelta(known, b, from, hi, next)
  {
    ChunkSlice(b, addr, hi);
    TightStretch(known, b, addr, hi);
    forall a | InSome(chunks, a)
      ensures InSome(next, a)
    {
      InSomeOfLast(next, a);
      assert next[..|chunks|] == chunks;
    }
    CompleteGrows(known, b, from, addr, hi, chunks, next);
  }

  /** Growing the last chunk over a short gap. */
  lemma GrowLast(known: ByteMap, b: MemoryBytes, from: nat, addr: nat, hi: nat, result: seq<MemoryBytes>, c: MemoryBytes,
                 before: seq<MemoryBytes>, next: seq<MemoryBytes>)
    requires IsDelta(known, b, from, addr, before) && before == result + [c]
    requires b.start <= c.start && c.Limit() <= addr < c.Limit() + MIN_SKIP_OVER_BYTES
    requires addr < hi <= b.Limit() && AllDiffer(known, b, addr, hi)
    requires next == result + [b.Range(c.start, hi)]
    ensures IsDelta(known, b, from, hi, next)
  {
    var grown := b.Range(c.start, hi);
    assert before[|result|] == c && next[|result|] == grown;
    ChunkSlice(b, c.start, hi);
    TightGrows(known, b, c.start, c.Limit(), addr, hi);
    GrownShape(b, from, addr, hi, result, c, grown, before, next);
    GrownTight(known, b, result, c, grown, before, next);
    forall a | InSome(before, a)
      ensures InSome(next, a)
    {
      InSomeGrown(result, c, grown, before, next, a);
    }
    CompleteGrows(known, b, from, addr, hi, before, next);
  }

  lemma GrownShape(b: MemoryBytes, from: nat, addr: nat, hi: nat, result: seq<MemoryBytes>, c: MemoryBytes,
                   grown: MemoryBytes, before: seq<MemoryBytes>, next: seq<MemoryBytes>)
    requires before == result + [c] && next == result + [grown]
    requires AllSlices(b, before) && Within(before, from, addr) && Spaced(before)
    requires SliceOf(b, grown) && grown.start == c.start && grown.Limit() == hi && addr < hi
    ensures AllSlices(b, next) && Within(next, from, hi) && Spaced(next)
  {
    assert before[|result|] == c && next[|result|] == grown;
    assert forall i | 0 <= i < |result| :: next[i] == before[i];
  }

  lemma GrownTight(known: ByteMap, b: MemoryBytes, result: seq<MemoryBytes>, c: MemoryBytes, grown: MemoryBytes,
                   before: seq<MemoryBytes>, next: seq<MemoryBytes>)
    requires before == result + [c] && next == result + [grown] && AllTight(known, b, before)
    requires Tight(known, b, grown.start, grown.Limit())
    ensures AllTight(known, b, next)
  {
    forall i | 0 <= i < |next|
      ensures Tight(known, b, next[i].start, next[i].Limit())
    {
      if i < |result| {
        assert next[i] == before[i];
      }
    }
  }

  lemma InSomeGrown(result: seq<MemoryBytes>, c: MemoryBytes, grown: MemoryBytes,
                    before: seq<MemoryBytes>, next: seq<MemoryBytes>, a: nat)
    requires before == result + [c] && next == result + [grown] && InSome(before, a)
    requires grown.start == c.start && grown.Limit() >= c.Limit()
    ensures InSome(next, a)
  {
    var i :| 0 <= i < |before| && before[i].Has(a);
    assert next[i].Has(a);
  }

  /** What growing leaves: `chunk` extended or started for `size` bytes from `addr` on. */
  function Grown(b: MemoryBytes, addr: nat, size: nat, chunk: Option<MemoryBytes>, result: seq<MemoryBytes>)
    : (Option<MemoryBytes>, seq<MemoryBytes>)
    requires b.start <= addr && addr + size <= b.Limit()
    requires chunk.Some? ==> b.start <= chunk.value.start && chunk.value.Limit() <= addr
  {
    if chunk.None? then (Some(b.Range(addr, addr + size)), result)
    else if addr - chunk.value.Limit() < MIN_SKIP_OVER_BYTES then
      (Some(b.Range(chunk.value.start, addr + size)), result)
    else (Some(b.Range(addr, addr + size)), result + [chunk.value])
  }

  /** A delta with `chunk` as its last entry, if it has any. */
  ghost predicate Growing(known: ByteMap, b: MemoryBytes, upTo: nat, chunk: Option<MemoryBytes>, result: seq<MemoryBytes>) {
    && b.start <= upTo <= b.Limit()
    && IsDelta(known, b, b.start, upTo, Chunks(result, chunk))
    && (chunk.None? ==> result == [])
  }

  lemma LastSlice(known: ByteMap, b: MemoryBytes, addr: nat, chunk: Option<MemoryBytes>, result: seq<MemoryBytes>)
    requires Growing(known, b, addr, chunk, result)
    ensures chunk.Some? ==> SliceOf(b, chunk.value) && chunk.value.Limit() <= addr
  {
    assert chunk.Some? ==> Chunks(result, chunk)[|result|] == chunk.value;
  }

  lemma GrowFirst(known: ByteMap, b: MemoryBytes, addr: nat, size: nat)
    requires Growing(known, b, addr, None, [])
    requires 0 < size && addr + size <= b.Limit() && AllDiffer(known, b, addr, addr + size)
    ensures Growing(known, b, addr + size, Some(b.Range(addr, addr + size)), [])
  {
    AddChunk(known, b, b.start, addr, addr + size, Chunks([], None), Chunks([], Some(b.Range(addr, addr + size))));
  }

  lemma GrowNear(known: ByteMap, b: MemoryBytes, addr: nat, size: nat, c: MemoryBytes, result: seq<MemoryBytes>)
    requires Growing(known, b, addr, Some(c), result)
    requires b.start <= c.start && c.Limit() <= addr < c.Limit() + MIN_SKIP_OVER_BYTES
    requires 0 < size && addr + size <= b.Limit() && AllDiffer(known, b, addr, addr + size)
    ensures Growing(known, b, addr + size, Some(b.Range(c.start, addr + size)), result)
  {
    GrowLast(known, b, b.start, addr, addr + size, result, c, Chunks(result, Some(c)),
      Chunks(result, Some(b.Range(c.start, addr + size))));
  }

  lemma GrowFar(known: ByteMap, b: MemoryBytes, addr: nat, size: nat, c: MemoryBytes, result: seq<MemoryBytes>)
    requires Growing(known, b, addr, Some(c), result)
    requires c.Limit() + MIN_SKIP_OVER_BYTES <= addr
    requires 0 < size && addr + size <= b.Limit() && AllDiffer(known, b, addr, addr + size)
    ensures Growing(known, b, addr + size, Some(b.Range(addr, addr + size)), result + [c])
  {
    var all := Chunks(result, Some(c));
    assert all[|all| - 1] == c;
    LastIsLast(all, b.start, addr);
    AddChunk(known, b, b.start, addr, addr + size, all, Chunks(result + [c], Some(b.Range(addr, addr + size))));
  }

  lemma GrowStep(known: ByteMap, b: MemoryBytes, addr: nat, size: nat, chunk: Option<MemoryBytes>, result: seq<MemoryBytes>)
    requires Growing(known, b, addr, chunk, result)
    requires 0 < size && addr + size <= b.Limit() && AllDiffer(known, b, addr, addr + size)
    ensures chunk.Some? ==> SliceOf(b, chunk.value) && chunk.value.Limit() <= addr
    ensures var r := Grown(b, addr, size, chunk, result); Growing(known, b, addr + size, r.0, r.1)
  {
    LastSlice(known, b, addr, chunk, result);
    if chunk.None? {
      GrowFirst(known, b, addr, size);
    } else if addr - chunk.value.Limit() < MIN_SKIP_OVER_BYTES {
      GrowNear(known, b, addr, size, chunk.value, result);
    } else {
      GrowFar(known, b, addr, size, chunk.value, result);
    }
  }

  lemma LastIsLast(chunks: seq<MemoryBytes>, from: nat, upTo: nat)
    requires chunks != [] && Spaced(chunks) && Within(chunks, from, upTo)
    requires chunks[|chunks| - 1].Limit() + MIN_SKIP_OVER_BYTES <= upTo
    requires forall i | 0 <= i < |chunks| :: chunks[i].Valid()
    ensures Within(chunks, from, upTo - MIN_SKIP_OVER_BYTES)
  {}

  // ----- there is only one delta -----

  /** Both deltas start at the first byte that differs. */
  lemma FirstDiffers(known: ByteMap, b: MemoryBytes, from: nat, upTo: nat, p: seq<MemoryBytes>, q: seq<MemoryBytes>)
    requires IsDelta(known, b, from, upTo, p) && IsDelta(known, b, from, upTo, q) && p != []
    ensures q != [] && q[0].start <= p[0].start
  {
    assert Tight(known, b, p[0].start, p[0].Limit());
    assert InSome(q, p[0].start);
    var i :| 0 <= i < |q| && q[i].Has(p[0].start);
    assert i > 0 ==> q[0].Limit() <= q[i].start;
    assert Tight(known, b, q[0].start, q[0].Limit());
  }

  /** Right after the first chunk nothing differs for as long as a skipped stretch. */
  lemma EqualAfterFirst(known: ByteMap, b: MemoryBytes, from: nat, upTo: nat, p: seq<MemoryBytes>, a: nat)
    requires IsDelta(known, b, from, upTo, p) && p != []
    requires p[0].Limit() <= a < p[0].Limit() + MIN_SKIP_OVER_BYTES && a < upTo
    ensures !Differs(known, b, a)
  {
    assert Tight(known, b, p[0].start, p[0].Limit());
    forall i | 0 <= i < |p|
      ensures !p[i].Has(a)
    {
      assert i > 0 ==> p[0].Limit() + MIN_SKIP_OVER_BYTES <= p[i].start;
    }
    assert !InSome(p, a);
  }

  lemma FirstReaches(known: ByteMap, b: MemoryBytes, from: nat, upTo: nat, p: seq<MemoryBytes>, q: seq<MemoryBytes>)
    requires IsDelta(known, b, from, upTo, p) && IsDelta(known, b, from, upTo, q) && p != [] && q != []
    requires p[0].start == q[0].start
    ensures p[0].Limit() >= q[0].Limit()
  {
    assert Tight(known, b, p[0].start, p[0].Limit()) && Tight(known, b, q[0].start, q[0].Limit());
    var w := p[0].Limit();
    forall a | w <= a < w + MIN_SKIP_OVER_BYTES && a < upTo
      ensures !Differs(known, b, a)
    {
      EqualAfterFirst(known, b, from, upTo, p, a);
    }
    assert w <= q[0].Limit() - MIN_SKIP_OVER_BYTES ==> Window(known, b, w);
  }

  lemma DropFirstChunk(known: ByteMap, b: MemoryBytes, from: nat, upTo: nat, p: seq<MemoryBytes>)
    requires IsDelta(known, b, from, upTo, p) && p != []
    ensures IsDelta(known, b, p[0].Limit(), upTo, p[1..])
  {
    assert Tight(known, b, p[0].start, p[0].Limit());
    var rest := p[1..];
    assert forall i | 0 <= i < |rest| :: rest[i] == p[i + 1];
    forall a | p[0].Limit() <= a < upTo && Differs(known, b, a)
      ensures InSome(rest, a)
    {
      assert InSome(p, a);
      var i :| 0 <= i < |p| && p[i].Has(a);
      assert rest[i - 1].Has(a);
    }
  }

  /** The conditions on a delta leave exactly one list of chunks. */
  lemma {:induction false} DeltaIsUnique(known: ByteMap, b: MemoryBytes, from: nat, upTo: nat,
                                         p: seq<MemoryBytes>, q: seq<MemoryBytes>)
    requires IsDelta(known, b, from, upTo, p) && IsDelta(known, b, from, upTo, q)
    ensures p == q
    decreases |p|
  {
    if p == [] {
      if q != [] {
        FirstDiffers(known, b, from, upTo, q, p);
      }
    } else {
      FirstDiffers(known, b, from, upTo, p, q);
      FirstDiffers(known, b, from, upTo, q, p);
      FirstReaches(known, b, from, upTo, p, q);
      FirstReaches(known, b, from, upTo, q, p);
      assert Tight(known, b, p[0].start, p[0].Limit()) && Tight(known, b, q[0].start, q[0].Limit()) && SliceOf(b, p[0]) && SliceOf(b, q[0]);
      DropFirstChunk(known, b, from, upTo, p);
      DropFirstChunk(known, b, from, upTo, q);
      DeltaIsUnique(known, b, p[0].Limit(), upTo, p[1..], q[1..]);
      assert p == [p[0]] + p[1..] && q == [q[0]] + q[1..];
    }
  }

  // ----- a delta has the effect of the plain write -----

  lemma {:induction false} SlicesWritten(m: ByteMap, b: MemoryBytes, chunks: seq<MemoryBytes>, a: nat)
    requires AllSlices(b, chunks)
    requires InSome(chunks, a)
    ensures b.Has(a) && a in WrittenAll(m, chunks) && WrittenAll(m, chunks)[a] == b.ByteAt(a)
    decreases |chunks|
  {
    var i :| 0 <= i < |chunks| && chunks[i].Has(a);
    var last := chunks[|chunks| - 1];
    InSomeOfLast(chunks, a);
    assert SliceOf(b, last);
    if !last.Has(a) {
      SlicesWritten(m, b, chunks[..|chunks| - 1], a);
    }
  }

  /** Writing the delta makes the same bytes known as writing all the bytes. */
  lemma DeltaRefinesWrite(known: ByteMap, b: MemoryBytes, chunks: seq<MemoryBytes>)
    requires IsFullDelta(known, b, chunks)
    ensures WrittenAll(known, chunks) == Written(known, b)
  {
    var after := WrittenAll(known, chunks);
    forall a
      ensures a in after <==> a in Written(known, b)
      ensures a in after ==> after[a] == Written(known, b)[a]
    {
      if InSome(chunks, a) {
        SlicesWritten(known, b, chunks, a);
      } else {
        WrittenUntouched(known, chunks, a);
        assert b.Has(a) ==> !Differs(known, b, a);
      }
    }
  }

  /** And the same addresses count as written, when the known bytes already do. */
  lemma DeltaRefinesWrittenSet(written: set<nat>, known: ByteMap, b: MemoryBytes, chunks: seq<MemoryBytes>)
    requires IsFullDelta(known, b, chunks) && known.Keys <= written
    ensures written + Covered(chunks) == written + Addresses(b.start, b.Limit())
  {
    forall a
      ensures a in written + Covered(chunks) <==> a in written + Addresses(b.start, b.Limit())
    {
      CoveredIsInSome(chunks, a);
      if InSome(chunks, a) {
        SlicesWritten(known, b, chunks, a);
      } else if b.Has(a) {
        assert !Differs(known, b, a);
        assert a in known.Keys;
      }
    }
  }

  /** The delta is empty exactly when every byte is already known. */
  lemma EmptyDelta(known: ByteMap, b: MemoryBytes, chunks: seq<MemoryBytes>)
    requires IsFullDelta(known, b, chunks)
    ensures chunks == [] <==> Written(known, b) == known
  {
    if chunks == [] {
      DeltaRefinesWrite(known, b, chunks);
    } else {
      assert Tight(known, b, chunks[0].start, chunks[0].Limit());
      assert chunks[0].start in Written(known, b);
    }
  }

  // ----- scanning the known ranges -----

  /** The addresses whose bytes are known. */
  function KnownAt(known: ByteMap): map<nat, ()> {
    map a | a in known :: ()
  }

  /**
    The scan of the known ranges has reached `addr`: `it` is the first range that ends after
    it, and the ranges from `end` on start beyond the bytes.
   */
  ghost predicate Scanning(known: ByteMap, b: MemoryBytes, ranges: seq<Range<()>>, end: nat, addr: nat, it: nat) {
    && ranges == Runs(KnownAt(known))
    && b.start <= addr <= b.Limit()
    && it < |ranges|
    && (forall j | 0 <= j < it :: ranges[j].limit <= addr)
    && (addr < b.Limit() ==> addr < ranges[it].limit)
    && (end < |ranges| ==> b.Limit() <= ranges[end].start)
    && (it < end <= |ranges| || b.Limit() <= ranges[it].start)
  }

  /** The byte at `addr` is known just when `it` holds it. */
  lemma KnownByRange(known: ByteMap, b: MemoryBytes, ranges: seq<Range<()>>, end: nat, addr: nat, it: nat)
    requires Scanning(known, b, ranges, end, addr, it) && addr < b.Limit()
    ensures addr in known <==> ranges[it].start <= addr < ranges[it].limit
  {
    RunsAreIteration(KnownAt(known));
    assert addr in KnownAt(known) <==> addr in known;
    if ranges[it].start <= addr {
      assert ranges[it].Has(addr);
    } else {
      NothingBetween(KnownAt(known), ranges, it, addr, addr);
    }
  }

  /** Beyond the last overlapping range everything differs. */
  lemma TailDiffers(known: ByteMap, b: MemoryBytes, ranges: seq<Range<()>>, i: nat, addr: nat)
    requires ranges == Runs(KnownAt(known)) && i <= |ranges|
    requires forall j | 0 <= j < i :: ranges[j].limit <= addr
    requires i < |ranges| ==> b.Limit() <= ranges[i].start
    requires b.start <= addr
    ensures AllDiffer(known, b, addr, b.Limit())
  {
    RunsAreIteration(KnownAt(known));
    NothingIn(KnownAt(known), ranges, i, addr, b.Limit());
    forall a | addr <= a < b.Limit()
      ensures Differs(known, b, a)
    {
      assert a !in KnownAt(known);
    }
  }

  /** Passing one byte that is known already. */
  lemma PassKnown(known: ByteMap, b: MemoryBytes, addr: nat, chunk: Option<MemoryBytes>, result: seq<MemoryBytes>)
    requires Growing(known, b, addr, chunk, result) && addr < b.Limit() && !Differs(known, b, addr)
    ensures Growing(known, b, addr + 1, chunk, result)
  {
    PassEqual(known, b, b.start, addr, Chunks(result, chunk));
  }

  /** One step of the scan; after the last range that overlaps, everything else differs. */
  lemma ScanStep(known: ByteMap, b: MemoryBytes, ranges: seq<Range<()>>, end: nat, addr: nat, it: nat)
    requires Scanning(known, b, ranges, end, addr, it) && addr < b.Limit()
    ensures addr + 1 < ranges[it].limit ==> Scanning(known, b, ranges, end, addr + 1, it)
    ensures addr + 1 >= ranges[it].limit && it + 1 != end ==> Scanning(known, b, ranges, end, addr + 1, it + 1)
    ensures addr + 1 >= ranges[it].limit && it + 1 == end ==> AllDiffer(known, b, addr + 1, b.Limit())
  {
    if addr + 1 >= ranges[it].limit {
      RangeAfter(known, ranges, it, addr + 1);
      if it + 1 == end {
        TailDiffers(known, b, ranges, end, addr + 1);
      }
    }
  }

  /** The scan starts at the first range that overlaps; when there is none at or after it, everything differs. */
  lemma ScanStart(known: ByteMap, b: MemoryBytes, ranges: seq<Range<()>>)
    requires ranges == Runs(KnownAt(known)) && b.Valid()
    ensures var found := Find(ranges, b.start, b.Limit());
      if found.0 == |ranges| then AllDiffer(known, b, b.start, b.Limit())
      else Scanning(known, b, ranges, found.1, b.start, found.0)
  {
    RunsAreIteration(KnownAt(known));
    AfterFound(ranges, b.start, b.Limit());
    if LowerBoundFrom(ranges, b.start, 0) == |ranges| {
      TailDiffers(known, b, ranges, |ranges|, b.start);
    }
  }

  lemma RangeAfter(known: ByteMap, ranges: seq<Range<()>>, it: nat, addr: nat)
    requires ranges == Runs(KnownAt(known)) && it < |ranges| && ranges[it].limit == addr
    ensures it + 1 < |ranges| ==> addr <= ranges[it + 1].start < ranges[it + 1].limit
    ensures ranges[it].start < addr
  {
    RunsAreIteration(KnownAt(known));
  }

  /** A slice and the bytes after it are a longer slice. */
  lemma SliceJoin(b: MemoryBytes, c: MemoryBytes, to: nat)
    requires SliceOf(b, c) && c.Limit() <= to <= b.Limit()
    ensures MemoryBytes(c.start, c.values + b.values[c.Limit() - b.start..to - b.start]) == b.Range(c.start, to)
  {}

  /** Bytes of which none is known are their own delta. */
  lemma UnknownDelta(known: ByteMap, b: MemoryBytes)
    requires b.Valid() && AllDiffer(known, b, b.start, b.Limit())
    ensures IsFullDelta(known, b, [b])
  {
    GrowStep(known, b, b.start, |b.values|, None, []);
    assert Chunks([], Some(b.Range(b.start, b.Limit()))) == [b.Range(b.start, b.Limit())];
    assert b.Range(b.start, b.Limit()) == b;
  }

  // ----- lists of bytes -----

  /** The deltas of the entries, one after the other. */
  ghost predicate IsListDelta(known: ByteMap, list: seq<MemoryBytes>, chunks: seq<MemoryBytes>)
    decreases |list|, 1
  {
    if list == [] then chunks == []
    else exists k :: 0 <= k <= |chunks| && SplitsAt(known, list, chunks, k)
  }

  ghost predicate SplitsAt(known: ByteMap, list: seq<MemoryBytes>, chunks: seq<MemoryBytes>, k: nat)
    requires list != [] && k <= |chunks|
    decreases |list|, 0
  {
    && IsListDelta(known, list[..|list| - 1], chunks[..k])
    && IsFullDelta(known, list[|list| - 1], chunks[k..])
  }

  lemma NextListDelta(known: ByteMap, list: seq<MemoryBytes>, i: nat, chunks: seq<MemoryBytes>, more: seq<MemoryBytes>)
    requires i < |list| && IsListDelta(known, list[..i], chunks) && IsFullDelta(known, list[i], more)
    ensures IsListDelta(known, list[..i + 1], chunks + more)
  {
    var all := chunks + more;
    assert list[..i + 1][..i] == list[..i];
    assert all[..|chunks|] == chunks && all[|chunks|..] == more;
    assert SplitsAt(known, list[..i + 1], all, |chunks|);
  }

  lemma {:induction false} WrittenInParts(m: ByteMap, p: seq<MemoryBytes>, q: seq<MemoryBytes>)
    ensures WrittenAll(m, p + q) == WrittenAll(WrittenAll(m, p), q)
    decreases |q|
  {
    if q == [] {
      assert p + q == p;
    } else {
      assert (p + q)[..|p + q| - 1] == p + q[..|q| - 1];
      WrittenInParts(m, p, q[..|q| - 1]);
    }
  }

  /** A delta only depends on what is known of the bytes themselves. */
  lemma DeltaElsewhere(known: ByteMap, known': ByteMap, b: MemoryBytes, chunks: seq<MemoryBytes>)
    requires IsFullDelta(known, b, chunks)
    requires forall a :: Differs(known, b, a) == Differs(known', b, a)
    ensures IsFullDelta(known', b, chunks)
  {
    forall i | 0 <= i < |chunks|
      ensures Tight(known', b, chunks[i].start, chunks[i].Limit())
    {
      TightElsewhere(known, known', b, chunks[i].start, chunks[i].Limit());
    }
  }

  lemma TightElsewhere(known: ByteMap, known': ByteMap, b: MemoryBytes, lo: nat, hi: nat)
    requires Tight(known, b, lo, hi)
    requires forall a :: Differs(known, b, a) == Differs(known', b, a)
    ensures Tight(known', b, lo, hi)
  {
    assert Differs(known', b, lo) && Differs(known', b, hi - 1);
    forall w | lo <= w <= hi - MIN_SKIP_OVER_BYTES
      ensures Window(known', b, w)
    {
      assert Window(known, b, w);
      var a :| w <= a < w + MIN_SKIP_OVER_BYTES && Differs(known, b, a);
      assert Differs(known', b, a);
    }
  }

  /** The delta of disjoint chunks has the effect of writing all of them. */
  lemma {:induction false} ListDeltaRefinesWrite(known: ByteMap, list: seq<MemoryBytes>, chunks: seq<MemoryBytes>)
    requires DisjointChunks(list) && IsListDelta(known, list, chunks)
    ensures WrittenAll(known, chunks) == WrittenAll(known, list)
    decreases |list|
  {
    if list != [] {
      var front, last := list[..|list| - 1], list[|list| - 1];
      var k :| 0 <= k <= |chunks| && SplitsAt(known, list, chunks, k);
      ListDeltaRefinesWrite(known, front, chunks[..k]);
      LastDelta(known, list, chunks[k..]);
      WrittenInParts(known, chunks[..k], chunks[k..]);
      SplitChunks(chunks, k);
    }
  }

  /** The delta of disjoint chunks leaves the same addresses written as writing all of them. */
  lemma {:induction false} ListDeltaRefinesWrittenSet(written: set<nat>, known: ByteMap, list: seq<MemoryBytes>,
                                                      chunks: seq<MemoryBytes>)
    requires IsListDelta(known, list, chunks) && known.Keys <= written
    ensures written + Covered(chunks) == written + Covered(list)
    decreases |list|
  {
    if list != [] {
      var front, last := list[..|list| - 1], list[|list| - 1];
      var k :| 0 <= k <= |chunks| && SplitsAt(known, list, chunks, k);
      ListDeltaRefinesWrittenSet(written, known, front, chunks[..k]);
      DeltaRefinesWrittenSet(written, known, last, chunks[k..]);
      CoveredInParts(chunks[..k], chunks[k..]);
      SplitChunks(chunks, k);
      UnionOfParts(written, Covered(chunks[..k]), Covered(front), Covered(chunks[k..]), Addresses(last.start, last.Limit()));
    }
  }

  lemma UnionOfParts(s: set<nat>, p: set<nat>, p': set<nat>, q: set<nat>, q': set<nat>)
    requires s + p == s + p' && s + q == s + q'
    ensures s + (p + q) == s + (p' + q')
  {
    assert s + (p + q) == (s + p) + (s + q);
    assert s + (p' + q') == (s + p') + (s + q');
  }

  lemma SplitChunks(chunks: seq<MemoryBytes>, k: nat)
    requires k <= |chunks|
    ensures chunks[..k] + chunks[k..] == chunks
  {}

  /** Writing the others first does not matter for the delta of the last entry. */
  lemma LastDelta(known: ByteMap, list: seq<MemoryBytes>, more: seq<MemoryBytes>)
    requires list != [] && DisjointChunks(list) && IsFullDelta(known, list[|list| - 1], more)
    ensures WrittenAll(WrittenAll(known, list[..|list| - 1]), more) == WrittenAll(known, list)
  {
    var front, last := list[..|list| - 1], list[|list| - 1];
    var known' := WrittenAll(known, front);
    forall a
      ensures Differs(known, last, a) == Differs(known', last, a)
    {
      if last.Has(a) {
        DisjointLast(list, a);
        WrittenUntouched(known, front, a);
      }
    }
    DeltaElsewhere(known, known', last, more);
    DeltaRefinesWrite(known', last, more);
  }

  lemma DisjointLast(list: seq<MemoryBytes>, a: nat)
    requires list != [] && DisjointChunks(list) && list[|list| - 1].Has(a)
    ensures !InSome(list[..|list| - 1], a)
  {}

  /** When all bytes of all entries are known, nothing is left to write. */
  lemma {:induction false} EmptyListDelta(known: ByteMap, list: seq<MemoryBytes>, chunks: seq<MemoryBytes>)
    requires IsListDelta(known, list, chunks)
    requires forall i | 0 <= i < |list| :: Written(known, list[i]) == known
    ensures chunks == []
    decreases |list|
  {
    if list != [] {
      var k :| 0 <= k <= |chunks| && SplitsAt(known, list, chunks, k);
      EmptyListDelta(known, list[..|list| - 1], chunks[..k]);
      EmptyDelta(known, list[|list| - 1], chunks[k..]);
    }
  }

  /** What has been written is known. */
  lemma WrittenIsKnown(m: ByteMap, list: seq<MemoryBytes>, i: nat)
    requires DisjointChunks(list) && i < |list|
    ensures Written(WrittenAll(m, list), list[i]) == WrittenAll(m, list)
  {}
}
