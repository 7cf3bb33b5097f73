/** A sparse, byte-addressable memory image: the populated runs of an
    otherwise unbounded address space, kept as a list of segments that
    never overlap and never touch. */
module SparseMemory {
  import opened Wrappers

  type Byte = bv8

  /** The largest 64-bit address. */
  const U64_MAX: nat := 0xFFFF_FFFF_FFFF_FFFF

  /** A populated run: `bytes` stored from `start`, covering [start, End()). */
  datatype Segment = Segment(start: nat, bytes: seq<Byte>) {
    function End(): nat { start + |bytes| }

    /** The same run with `more` appended after its last byte. */
    function Extend(more: seq<Byte>): Segment { Segment(start, bytes + more) }
  }

  /** A half-open address range [start, end). */
  datatype Range = Range(start: nat, end: nat)

  /** Address x lies in the range. */
  predicate InRange(r: Range, x: nat) { r.start <= x < r.end }

  /** Whether range `a` holds range `b`, by comparing endpoints. */
  function ContainsRange(a: Range, b: Range): bool {
    if a.start > b.start then false else a.end >= b.end
  }

  /** For a non-empty `b`, the endpoint test is exactly inclusion of addresses. */
  lemma ContainsRangeIsInclusion(a: Range, b: Range)
    requires b.start < b.end
    ensures ContainsRange(a, b) <==> forall x :: InRange(b, x) ==> InRange(a, x)
  {
    if forall x :: InRange(b, x) ==> InRange(a, x) {
      assert InRange(b, b.start) && InRange(b, b.end - 1);
    }
  }

  /** Some address lies in both `s` and [lo, hi). */
  predicate Overlaps(s: Segment, lo: nat, hi: nat) {
    lo < s.End() && s.start < hi
  }

  /** Two runs neither overlap nor touch end to start. */
  predicate Separate(x: Segment, y: Segment) {
    && !Overlaps(x, y.start, y.End())
    && x.start != y.End()
    && y.start != x.End()
  }

  /** The check the store makes after every successful insert: no two
      segments overlap and no two are adjacent. */
  predicate WellFormed(rs: seq<Segment>) {
    forall i, j :: 0 <= i < j < |rs| ==> Separate(rs[i], rs[j])
  }

  /** A segment holds at least one byte and ends inside the 64-bit address space. */
  predicate Sized(s: Segment) {
    0 < |s.bytes| && s.End() <= U64_MAX
  }

  /** The representation invariant of the store. */
  predicate Canonical(rs: seq<Segment>) {
    WellFormed(rs) && forall i :: 0 <= i < |rs| ==> Sized(rs[i])
  }

  /** The questions the store's scans ask of one segment. */
  datatype Probe =
    | EndsAt(addr: nat)            // a left neighbour of a write at addr
    | StartsAt(addr: nat)          // a follower of a write ending at addr
    | Meets(lo: nat, hi: nat)      // overlaps [lo, hi)
    | Covers(lo: nat, hi: nat)     // holds the whole query [lo, hi)

  predicate Hit(p: Probe, s: Segment) {
    match p
    case EndsAt(a) => s.End() == a
    case StartsAt(a) => s.start == a
    case Meets(lo, hi) => Overlaps(s, lo, hi)
    case Covers(lo, hi) => ContainsRange(Range(s.start, s.End()), Range(lo, hi))
  }

  /** The index of the first segment the probe hits, scanning from the front. */
  function First(rs: seq<Segment>, p: Probe): (r: Option<nat>)
    ensures r.Some? ==> r.value < |rs| && Hit(p, rs[r.value])
  {
    if rs == [] then None
    else if Hit(p, rs[0]) then Some(0)
    else match First(rs[1..], p)
      case None => None
      case Some(k) => Some(k + 1)
  }

  /** The list without its element at index k, the rest in order. */
  function Without(rs: seq<Segment>, k: nat): (r: seq<Segment>)
    requires k < |rs|
    ensures |r| == |rs| - 1
    ensures forall m :: 0 <= m < |r| ==> r[m] == rs[if m < k then m else m + 1]
  {
    rs[..k] + rs[k + 1..]
  }

  /** The bytes of `s` at addresses [lo, hi). */
  function Slice(s: Segment, lo: nat, hi: nat): seq<Byte>
    requires s.start <= lo <= hi <= s.End()
  {
    s.bytes[lo - s.start..hi - s.start]
  }

  /** A read of [lo, hi): the bytes from the first segment that holds the
      whole range, or nothing. A reversed range is refused only when some
      segment would be chosen, because only the slicing of that segment fails. */
  function Lookup(rs: seq<Segment>, lo: nat, hi: nat): (r: Option<seq<Byte>>)
    requires lo <= hi || First(rs, Covers(lo, hi)).None?
    ensures r.Some? <==> exists i :: 0 <= i < |rs| && Hit(Covers(lo, hi), rs[i])
    ensures r.Some? ==> |r.value| == hi - lo
  {
    FirstIsEarliest(rs, Covers(lo, hi));
    match First(rs, Covers(lo, hi))
    case None => None
    case Some(i) => Some(Slice(rs[i], lo, hi))
  }

  /** Total number of stored bytes. */
  function TotalSize(rs: seq<Segment>): nat {
    if rs == [] then 0 else |rs[0].bytes| + TotalSize(rs[1..])
  }

  // ---------------------------------------------------------------------
  // The insert, as a function of the segment list before the call
  // ---------------------------------------------------------------------

  /** Whether insert(addr, data) reports success: it fails exactly when
      [addr, addr + |data|) overlaps a stored segment. */
  function InsertResult(rs: seq<Segment>, addr: nat, data: seq<Byte>): (r: Result<(), ()>)
    ensures r.Err? <==> exists i :: 0 <= i < |rs| && Overlaps(rs[i], addr, addr + |data|)
  {
    FirstIsEarliest(rs, Meets(addr, addr + |data|));
    if First(rs, Meets(addr, addr + |data|)).Some? then Err(()) else Ok(())
  }

  /** The follower step: the first segment starting at `hi` is removed and
      its bytes are appended to the segment at index `a` (whose index drops
      by one when the removed segment came before it). */
  function Absorb(rs: seq<Segment>, a: nat, hi: nat): seq<Segment>
    requires a < |rs| && rs[a].start < hi
  {
    match First(rs, StartsAt(hi))
    case None => rs
    case Some(k) =>
      var rest := Without(rs, k);
      var a' := if k < a then a - 1 else a;
      rest[a' := rest[a'].Extend(rs[k].bytes)]
  }

  /** The segment list after insert(addr, data). The scan visits the segments
      in order, stopping at the first overlap; a left neighbour met before
      that point has already been extended when the overlap is found. */
  function AfterInsert(rs: seq<Segment>, addr: nat, data: seq<Byte>): seq<Segment>
    requires 0 < |data|
  {
    var hi := addr + |data|;
    match First(rs, Meets(addr, hi))
    case Some(k) =>
      (match First(rs, EndsAt(addr))
       case Some(j) => if j < k then rs[j := rs[j].Extend(data)] else rs
       case None => rs)
    case None =>
      (match First(rs, EndsAt(addr))
       case Some(j) => Absorb(rs[j := rs[j].Extend(data)], j, hi)
       case None => Absorb(rs + [Segment(addr, data)], |rs|, hi))
  }

  /** The insert that checks for an overlap before it changes anything. */
  function AfterCheckedInsert(rs: seq<Segment>, addr: nat, data: seq<Byte>): seq<Segment>
    requires 0 < |data|
  {
    if InsertResult(rs, addr, data).Err? then rs else AfterInsert(rs, addr, data)
  }

  // ---------------------------------------------------------------------
  // Helper facts about lists of segments
  // ---------------------------------------------------------------------

  /** `First` finds the earliest hit: no segment before the one it returns
      is hit, and when it returns None no segment is hit at all. */
  lemma {:induction false} FirstIsEarliest(rs: seq<Segment>, p: Probe)
    ensures First(rs, p).Some? ==> forall m :: 0 <= m < First(rs, p).value ==> !Hit(p, rs[m])
    ensures First(rs, p).None? ==> forall m :: 0 <= m < |rs| ==> !Hit(p, rs[m])
  {
    if rs != [] && !Hit(p, rs[0]) {
      FirstIsEarliest(rs[1..], p);
      forall m | 1 <= m < |rs|
        ensures rs[m] == rs[1..][m - 1]
      {
      }
    }
  }

  lemma FirstNone(rs: seq<Segment>, p: Probe)
    requires forall m :: 0 <= m < |rs| ==> !Hit(p, rs[m])
    ensures First(rs, p) == None
  {
  }

  lemma FirstAt(rs: seq<Segment>, p: Probe, i: nat)
    requires i < |rs| && Hit(p, rs[i])
    requires forall m :: 0 <= m < i ==> !Hit(p, rs[m])
    ensures First(rs, p) == Some(i)
  {
    FirstIsEarliest(rs, p);
  }

  lemma FirstAfterPush(rs: seq<Segment>, y: Segment, p: Probe)
    requires !Hit(p, y)
    ensures First(rs + [y], p) == First(rs, p)
  {
    var r := rs + [y];
    assert forall m :: 0 <= m < |rs| ==> r[m] == rs[m];
    FirstIsEarliest(rs, p);
    match First(rs, p) {
      case Some(v) => FirstAt(r, p, v);
      case None => FirstNone(r, p);
    }
  }

  lemma FirstAfterUpdate(rs: seq<Segment>, j: nat, y: Segment, p: Probe)
    requires j < |rs| && Hit(p, y) == Hit(p, rs[j])
    ensures First(rs[j := y], p) == First(rs, p)
  {
    var r := rs[j := y];
    assert forall m :: 0 <= m < |rs| ==> Hit(p, r[m]) == Hit(p, rs[m]);
    FirstIsEarliest(rs, p);
    match First(rs, p) {
      case Some(v) => FirstAt(r, p, v);
      case None => FirstNone(r, p);
    }
  }

  lemma CanonicalPush(rs: seq<Segment>, y: Segment)
    requires Canonical(rs) && Sized(y)
    requires forall i :: 0 <= i < |rs| ==> Separate(rs[i], y)
    ensures Canonical(rs + [y])
  {
    var r := rs + [y];
    forall a, b | 0 <= a < b < |r| ensures Separate(r[a], r[b]) {
      assert r[a] == rs[a];
    }
  }

  lemma CanonicalUpdate(rs: seq<Segment>, j: nat, y: Segment)
    requires Canonical(rs) && j < |rs| && Sized(y)
    requires forall i :: 0 <= i < |rs| && i != j ==> Separate(rs[i], y)
    ensures Canonical(rs[j := y])
  {
    var r := rs[j := y];
    forall a, b | 0 <= a < b < |r| ensures Separate(r[a], r[b]) {
      if a == j {
        assert Separate(rs[b], y);
      } else if b == j {
        assert Separate(rs[a], y);
      }
    }
  }

  lemma CanonicalWithout(rs: seq<Segment>, k: nat)
    requires Canonical(rs) && k < |rs|
    ensures Canonical(Without(rs, k))
  {
    var r := Without(rs, k);
    forall a, b | 0 <= a < b < |r| ensures Separate(r[a], r[b]) {
      var a', b' := if a < k then a else a + 1, if b < k then b else b + 1;
      assert r[a] == rs[a'] && r[b] == rs[b'];
    }
  }

  /** A run that misses the three consecutive pieces of a merged segment,
      and touches neither of its ends, is separate from it. */
  lemma SeparateFromMerged(s: Segment, m: Segment, addr: nat, hi: nat)
    requires 0 < |s.bytes|
    requires m.start <= addr < hi <= m.End()
    requires !Overlaps(s, m.start, addr) && !Overlaps(s, addr, hi) && !Overlaps(s, hi, m.End())
    requires s.End() != m.start && s.start != m.End()
    ensures Separate(s, m)
  {
  }

  lemma {:induction false} TotalSizeConcat(a: seq<Segment>, b: seq<Segment>)
    ensures TotalSize(a + b) == TotalSize(a) + TotalSize(b)
  {
    if a == [] {
      assert a + b == b;
    } else {
      assert (a + b)[1..] == a[1..] + b;
      TotalSizeConcat(a[1..], b);
    }
  }

  lemma TotalSizeSplit(rs: seq<Segment>, k: nat)
    requires k < |rs|
    ensures TotalSize(rs) == TotalSize(rs[..k]) + |rs[k].bytes| + TotalSize(rs[k + 1..])
  {
    assert rs == rs[..k] + [rs[k]] + rs[k + 1..];
    TotalSizeConcat(rs[..k] + [rs[k]], rs[k + 1..]);
    TotalSizeConcat(rs[..k], [rs[k]]);
    assert TotalSize([rs[k]]) == |rs[k].bytes| by {
      assert [rs[k]][1..] == [];
    }
  }

  lemma TotalSizeUpdate(rs: seq<Segment>, j: nat, y: Segment)
    requires j < |rs|
    ensures TotalSize(rs[j := y]) == TotalSize(rs) - |rs[j].bytes| + |y.bytes|
  {
    var r := rs[j := y];
    TotalSizeSplit(rs, j);
    TotalSizeSplit(r, j);
    assert r[..j] == rs[..j] && r[j + 1..] == rs[j + 1..];
  }

  lemma TotalSizeWithout(rs: seq<Segment>, k: nat)
    requires k < |rs|
    ensures TotalSize(Without(rs, k)) == TotalSize(rs) - |rs[k].bytes|
  {
    TotalSizeSplit(rs, k);
    TotalSizeConcat(rs[..k], rs[k + 1..]);
  }

  lemma TotalSizePush(rs: seq<Segment>, y: Segment)
    ensures TotalSize(rs + [y]) == TotalSize(rs) + |y.bytes|
  {
    TotalSizeConcat(rs, [y]);
    assert TotalSize([y]) == |y.bytes| by {
      assert [y][1..] == [];
    }
  }

  // ---------------------------------------------------------------------
  // Embedding: a segment that holds another at the same addresses
  // ---------------------------------------------------------------------

  /** `outer` covers `inner`'s addresses and stores the same bytes there. */
  predicate Embeds(outer: Segment, inner: Segment) {
    && outer.start <= inner.start
    && inner.End() <= outer.End()
    && Slice(outer, inner.start, inner.End()) == inner.bytes
  }

  lemma EmbedsSelf(s: Segment)
    ensures Embeds(s, s)
  {
    assert s.bytes[0..|s.bytes|] == s.bytes;
  }

  lemma EmbedsPrefix(s: Segment, more: seq<Byte>)
    ensures Embeds(s.Extend(more), s)
  {
    assert (s.bytes + more)[0..|s.bytes|] == s.bytes;
  }

  lemma EmbedsSuffix(s: Segment, t: Segment)
    requires t.start == s.End()
    ensures Embeds(s.Extend(t.bytes), t)
  {
    var n := |s.bytes|;
    assert (s.bytes + t.bytes)[n..n + |t.bytes|] == t.bytes;
  }

  lemma EmbedsTransitive(a: Segment, b: Segment, c: Segment)
    requires Embeds(a, b) && Embeds(b, c)
    ensures Embeds(a, c)
  {
    var p, q := b.start - a.start, c.start - b.start;
    assert a.bytes[p + q..p + q + |c.bytes|] == a.bytes[p..p + |b.bytes|][q..q + |c.bytes|];
  }

  /** A read inside an embedded segment sees the same bytes in the outer one. */
  lemma EmbeddedSlice(outer: Segment, inner: Segment, lo: nat, hi: nat)
    requires Embeds(outer, inner)
    requires inner.start <= lo <= hi <= inner.End()
    ensures Hit(Covers(lo, hi), outer)
    ensures Slice(outer, lo, hi) == Slice(inner, lo, hi)
  {
    var p := inner.start - outer.start;
    var u, v := lo - inner.start, hi - inner.start;
    assert outer.bytes[p + u..p + v] == outer.bytes[p..p + |inner.bytes|][u..v];
  }

  // ---------------------------------------------------------------------
  // Reads
  // ---------------------------------------------------------------------

  /** In a canonical list at most one segment holds a given range. */
  lemma CoverUnique(rs: seq<Segment>, x: nat, y: nat, lo: nat, hi: nat)
    requires Canonical(rs) && x < |rs| && y < |rs| && lo <= hi
    requires Hit(Covers(lo, hi), rs[x]) && Hit(Covers(lo, hi), rs[y])
    ensures x == y
  {
  }

  /** In a canonical list a read returns the bytes of whichever segment holds
      the range, so the first-match order of the scan does not matter. */
  lemma LookupAt(rs: seq<Segment>, x: nat, lo: nat, hi: nat)
    requires Canonical(rs) && x < |rs| && lo <= hi
    requires Hit(Covers(lo, hi), rs[x])
    ensures Lookup(rs, lo, hi) == Some(Slice(rs[x], lo, hi))
  {
    FirstIsEarliest(rs, Covers(lo, hi));
    CoverUnique(rs, x, First(rs, Covers(lo, hi)).value, lo, hi);
  }

  /** A read never joins two segments: when [lo, hi) spans the gap between two
      stored runs, nothing is returned. */
  lemma LookupAcrossGap(rs: seq<Segment>, x: nat, y: nat, lo: nat, hi: nat)
    requires Canonical(rs) && x < |rs| && y < |rs|
    requires rs[x].End() < rs[y].start
    requires rs[x].start <= lo < rs[x].End() && rs[y].start < hi <= rs[y].End()
    ensures Lookup(rs, lo, hi).None?
  {
    forall z | 0 <= z < |rs| ensures !Hit(Covers(lo, hi), rs[z]) {
      if z != x && z != y {
        assert Separate(rs[z], rs[x]) && Separate(rs[z], rs[y]);
      }
    }
  }

  // ---------------------------------------------------------------------
  // What an insert does
  // ---------------------------------------------------------------------

  /** In a canonical list at most one segment ends at a given address. */
  lemma EndsAtUnique(rs: seq<Segment>, x: nat, y: nat, addr: nat)
    requires Canonical(rs) && x < |rs| && y < |rs|
    requires rs[x].End() == addr && rs[y].End() == addr
    ensures x == y
  {
  }

  lemma WithoutPush(rs: seq<Segment>, n: Segment, k: nat)
    requires k < |rs|
    ensures Without(rs + [n], k) == Without(rs, k) + [n]
  {
    var a, b := Without(rs + [n], k), Without(rs, k) + [n];
    assert |a| == |b|;
    forall m | 0 <= m < |a| ensures a[m] == b[m] {
    }
  }

  lemma WithoutUpdate(rs: seq<Segment>, j: nat, e: Segment, k: nat)
    requires j < |rs| && k < |rs| && j != k
    ensures Without(rs[j := e], k) == Without(rs, k)[(if k < j then j - 1 else j) := e]
  {
    var a, b := Without(rs[j := e], k), Without(rs, k)[(if k < j then j - 1 else j) := e];
    assert |a| == |b|;
    forall m | 0 <= m < |a| ensures a[m] == b[m] {
    }
  }

  /** The first scan of insert stops at segment i, the first segment that
      overlaps the chunk; `appended` is the left neighbour it has met and
      extended on the way, if any. */
  lemma ScanRejects(rs: seq<Segment>, addr: nat, data: seq<Byte>, i: nat, appended: Option<nat>,
                    now: seq<Segment>)
    requires 0 < |data| && i < |rs| && Overlaps(rs[i], addr, addr + |data|)
    requires forall m :: 0 <= m < i ==> !Overlaps(rs[m], addr, addr + |data|)
    requires appended.None? ==> forall m :: 0 <= m < i ==> rs[m].End() != addr
    requires appended.None? ==> now == rs
    requires appended.Some? ==> appended.value < i && First(rs, EndsAt(addr)) == appended
    requires appended.Some? ==> now == rs[appended.value := rs[appended.value].Extend(data)]
    ensures InsertResult(rs, addr, data).Err?
    ensures AfterInsert(rs, addr, data) == now
  {
    FirstAt(rs, Meets(addr, addr + |data|), i);
    if appended.None? {
      var f := First(rs, EndsAt(addr));
      assert f.Some? ==> f.value >= i;
    }
  }

  /** The first scan of insert meets no overlap; `appended` is the left
      neighbour it has extended, if any. */
  lemma ScanAccepts(rs: seq<Segment>, addr: nat, data: seq<Byte>, appended: Option<nat>,
                    placed: seq<Segment>, target: nat)
    requires 0 < |data|
    requires forall m :: 0 <= m < |rs| ==> !Overlaps(rs[m], addr, addr + |data|)
    requires appended.None? ==> forall m :: 0 <= m < |rs| ==> rs[m].End() != addr
    requires appended.None? ==> target == |rs| && placed == rs + [Segment(addr, data)]
    requires appended.Some? ==> First(rs, EndsAt(addr)) == appended
    requires appended.Some? ==>
               target == appended.value && placed == rs[target := rs[target].Extend(data)]
    ensures InsertResult(rs, addr, data).Ok?
    ensures target < |placed| && placed[target].start < addr + |data|
    ensures AfterInsert(rs, addr, data) == Absorb(placed, target, addr + |data|)
  {
    FirstNone(rs, Meets(addr, addr + |data|));
    if appended.None? {
      FirstNone(rs, EndsAt(addr));
    }
  }

  lemma AcceptedInsert(rs: seq<Segment>, addr: nat, data: seq<Byte>,
                       placed: seq<Segment>, target: nat, after: seq<Segment>)
    requires Canonical(rs) && 0 < |data| && addr + |data| <= U64_MAX
    requires InsertResult(rs, addr, data).Ok?
    requires target < |placed| && placed[target].start < addr + |data|
    requires AfterInsert(rs, addr, data) == Absorb(placed, target, addr + |data|)
    requires after == Absorb(placed, target, addr + |data|)
    ensures after == AfterInsert(rs, addr, data) && Canonical(after)
  {
    InsertKeepsCanonical(rs, addr, data);
  }

  /** The second scan of insert finds its follower at index k. */
  lemma AbsorbNone(rs: seq<Segment>, a: nat, hi: nat)
    requires a < |rs| && rs[a].start < hi
    requires forall m :: 0 <= m < |rs| ==> rs[m].start != hi
    ensures Absorb(rs, a, hi) == rs
  {
    FirstNone(rs, StartsAt(hi));
  }

  lemma AbsorbAt(rs: seq<Segment>, a: nat, hi: nat, k: nat)
    requires a < |rs| && rs[a].start < hi
    requires k < |rs| && rs[k].start == hi
    requires forall m :: 0 <= m < k ==> rs[m].start != hi
    ensures var a' := if k < a then a - 1 else a;
            Absorb(rs, a, hi) == Without(rs, k)[a' := rs[a].Extend(rs[k].bytes)]
  {
    FirstAt(rs, StartsAt(hi), k);
  }

  /** With neither a left neighbour (a segment ending at addr) nor a follower
      (a segment starting at addr + |data|), a successful insert pushes the
      chunk as a new last segment and changes nothing else. */
  lemma InsertPushes(rs: seq<Segment>, addr: nat, data: seq<Byte>)
    requires 0 < |data| && InsertResult(rs, addr, data).Ok?
    requires First(rs, EndsAt(addr)).None? && First(rs, StartsAt(addr + |data|)).None?
    ensures AfterInsert(rs, addr, data) == rs + [Segment(addr, data)]
  {
    FirstAfterPush(rs, Segment(addr, data), StartsAt(addr + |data|));
  }

  /** With a left neighbour j and no follower, the chunk is appended to
      segment j in place; no segment is created and no other changes. */
  lemma InsertExtendsLeft(rs: seq<Segment>, addr: nat, data: seq<Byte>, j: nat)
    requires 0 < |data| && InsertResult(rs, addr, data).Ok?
    requires First(rs, EndsAt(addr)) == Some(j) && First(rs, StartsAt(addr + |data|)).None?
    ensures AfterInsert(rs, addr, data) == rs[j := rs[j].Extend(data)]
  {
    FirstAfterUpdate(rs, j, rs[j].Extend(data), StartsAt(addr + |data|));
  }

  /** With no left neighbour and a follower k, the follower is removed and
      its bytes are appended to the chunk, which becomes the last segment;
      the other segments keep their values and their order. */
  lemma InsertAbsorbsFollower(rs: seq<Segment>, addr: nat, data: seq<Byte>, k: nat)
    requires 0 < |data| && InsertResult(rs, addr, data).Ok?
    requires First(rs, EndsAt(addr)).None? && First(rs, StartsAt(addr + |data|)) == Some(k)
    ensures AfterInsert(rs, addr, data) == Without(rs, k) + [Segment(addr, data).Extend(rs[k].bytes)]
  {
    var n := Segment(addr, data);
    FirstAfterPush(rs, n, StartsAt(addr + |data|));
    WithoutPush(rs, n, k);
  }

  /** With a left neighbour j and a follower k, the chunk bridges them: j
      receives the chunk and then the follower's bytes, the follower is
      removed, and the other segments keep their values and their order. */
  lemma InsertBridges(rs: seq<Segment>, addr: nat, data: seq<Byte>, j: nat, k: nat)
    requires 0 < |data| && InsertResult(rs, addr, data).Ok?
    requires First(rs, EndsAt(addr)) == Some(j) && First(rs, StartsAt(addr + |data|)) == Some(k)
    ensures j != k
    ensures AfterInsert(rs, addr, data)
         == Without(rs, k)[(if k < j then j - 1 else j) := rs[j].Extend(data).Extend(rs[k].bytes)]
  {
    var e := rs[j].Extend(data);
    FirstAfterUpdate(rs, j, e, StartsAt(addr + |data|));
    WithoutUpdate(rs, j, e, k);
  }

  lemma CanonicalByPush(rs: seq<Segment>, addr: nat, data: seq<Byte>)
    requires Canonical(rs) && 0 < |data| && addr + |data| <= U64_MAX
    requires forall i :: 0 <= i < |rs| ==> !Overlaps(rs[i], addr, addr + |data|)
    requires forall i :: 0 <= i < |rs| ==> rs[i].End() != addr && rs[i].start != addr + |data|
    ensures Canonical(rs + [Segment(addr, data)])
  {
    var n := Segment(addr, data);
    forall i | 0 <= i < |rs| ensures Separate(rs[i], n) {
      SeparateFromMerged(rs[i], n, addr, addr + |data|);
    }
    CanonicalPush(rs, n);
  }

  lemma CanonicalByExtend(rs: seq<Segment>, addr: nat, data: seq<Byte>, j: nat)
    requires Canonical(rs) && 0 < |data| && addr + |data| <= U64_MAX
    requires forall i :: 0 <= i < |rs| ==> !Overlaps(rs[i], addr, addr + |data|)
    requires forall i :: 0 <= i < |rs| ==> rs[i].start != addr + |data|
    requires j < |rs| && rs[j].End() == addr
    ensures Canonical(rs[j := rs[j].Extend(data)])
  {
    var m := rs[j].Extend(data);
    forall i | 0 <= i < |rs| && i != j ensures Separate(rs[i], m) {
      SeparateFromMerged(rs[i], m, addr, addr + |data|);
    }
    CanonicalUpdate(rs, j, m);
  }

  lemma CanonicalByAbsorb(rs: seq<Segment>, addr: nat, data: seq<Byte>, k: nat)
    requires Canonical(rs) && 0 < |data| && addr + |data| <= U64_MAX
    requires forall i :: 0 <= i < |rs| ==> !Overlaps(rs[i], addr, addr + |data|)
    requires forall i :: 0 <= i < |rs| ==> rs[i].End() != addr
    requires k < |rs| && rs[k].start == addr + |data|
    ensures Canonical(Without(rs, k) + [Segment(addr, data).Extend(rs[k].bytes)])
  {
    var w, m := Without(rs, k), Segment(addr, data).Extend(rs[k].bytes);
    CanonicalWithout(rs, k);
    forall i | 0 <= i < |w| ensures Separate(w[i], m) {
      var i' := if i < k then i else i + 1;
      assert w[i] == rs[i'] && i' != k;
      SeparateFromMerged(rs[i'], m, addr, addr + |data|);
    }
    CanonicalPush(w, m);
  }

  lemma CanonicalByBridge(rs: seq<Segment>, addr: nat, data: seq<Byte>, j: nat, k: nat)
    requires Canonical(rs) && 0 < |data| && addr + |data| <= U64_MAX
    requires forall i :: 0 <= i < |rs| ==> !Overlaps(rs[i], addr, addr + |data|)
    requires j < |rs| && rs[j].End() == addr
    requires k < |rs| && rs[k].start == addr + |data|
    ensures j != k
    ensures Canonical(Without(rs, k)[(if k < j then j - 1 else j) := rs[j].Extend(data).Extend(rs[k].bytes)])
  {
    var w, j' := Without(rs, k), if k < j then j - 1 else j;
    var m := rs[j].Extend(data).Extend(rs[k].bytes);
    CanonicalWithout(rs, k);
    forall i | 0 <= i < |w| && i != j' ensures Separate(w[i], m) {
      var i' := if i < k then i else i + 1;
      assert w[i] == rs[i'] && i' != k && i' != j;
      SeparateFromMerged(rs[i'], m, addr, addr + |data|);
    }
    CanonicalUpdate(w, j', m);
  }

  /** A successful insert keeps the store canonical: no two segments overlap
      or touch afterwards, and every segment is non-empty and within the
      64-bit address space. */
  lemma InsertKeepsCanonical(rs: seq<Segment>, addr: nat, data: seq<Byte>)
    requires Canonical(rs) && 0 < |data| && addr + |data| <= U64_MAX
    requires InsertResult(rs, addr, data).Ok?
    ensures Canonical(AfterInsert(rs, addr, data))
  {
    var hi := addr + |data|;
    assert forall i :: 0 <= i < |rs| ==> !Overlaps(rs[i], addr, hi);
    FirstIsEarliest(rs, EndsAt(addr));
    FirstIsEarliest(rs, StartsAt(hi));
    match First(rs, EndsAt(addr)) {
      case None =>
        match First(rs, StartsAt(hi)) {
          case None =>
            InsertPushes(rs, addr, data);
            CanonicalByPush(rs, addr, data);
          case Some(k) =>
            InsertAbsorbsFollower(rs, addr, data, k);
            CanonicalByAbsorb(rs, addr, data, k);
        }
      case Some(j) =>
        match First(rs, StartsAt(hi)) {
          case None =>
            InsertExtendsLeft(rs, addr, data, j);
            CanonicalByExtend(rs, addr, data, j);
          case Some(k) =>
            InsertBridges(rs, addr, data, j, k);
            CanonicalByBridge(rs, addr, data, j, k);
        }
    }
  }

  /** Every segment of `before` is embedded in some segment of `after`. */
  predicate Kept(before: seq<Segment>, after: seq<Segment>) {
    forall i :: 0 <= i < |before| ==> exists x :: 0 <= x < |after| && Embeds(after[x], before[i])
  }

  /** Some segment of `rs` embeds `s`. */
  predicate Stored(rs: seq<Segment>, s: Segment) {
    exists x :: 0 <= x < |rs| && Embeds(rs[x], s)
  }

  lemma KeptByPush(rs: seq<Segment>, n: Segment)
    ensures Kept(rs, rs + [n]) && Stored(rs + [n], n)
  {
    var after := rs + [n];
    forall i | 0 <= i < |rs| ensures exists x :: 0 <= x < |after| && Embeds(after[x], rs[i]) {
      EmbedsSelf(rs[i]);
      assert after[i] == rs[i];
    }
    EmbedsSelf(n);
    assert after[|rs|] == n;
  }

  lemma KeptByExtend(rs: seq<Segment>, j: nat, data: seq<Byte>)
    requires j < |rs|
    ensures var after := rs[j := rs[j].Extend(data)];
            Kept(rs, after) && Stored(after, Segment(rs[j].End(), data))
  {
    var after := rs[j := rs[j].Extend(data)];
    forall i | 0 <= i < |rs| ensures exists x :: 0 <= x < |after| && Embeds(after[x], rs[i]) {
      if i == j {
        EmbedsPrefix(rs[j], data);
      } else {
        EmbedsSelf(rs[i]);
      }
      assert Embeds(after[i], rs[i]);
    }
    EmbedsSuffix(rs[j], Segment(rs[j].End(), data));
    assert Embeds(after[j], Segment(rs[j].End(), data));
  }

  lemma KeptByAbsorb(rs: seq<Segment>, n: Segment, k: nat)
    requires k < |rs| && rs[k].start == n.End()
    ensures var after := Without(rs, k) + [n.Extend(rs[k].bytes)];
            Kept(rs, after) && Stored(after, n)
  {
    var after := Without(rs, k) + [n.Extend(rs[k].bytes)];
    var last := |after| - 1;
    forall i | 0 <= i < |rs| ensures exists x :: 0 <= x < |after| && Embeds(after[x], rs[i]) {
      if i == k {
        EmbedsSuffix(n, rs[k]);
        assert Embeds(after[last], rs[i]);
      } else {
        var x := if i < k then i else i - 1;
        EmbedsSelf(rs[i]);
        assert Embeds(after[x], rs[i]);
      }
    }
    EmbedsPrefix(n, rs[k].bytes);
    assert Embeds(after[last], n);
  }

  lemma KeptByBridge(rs: seq<Segment>, j: nat, data: seq<Byte>, k: nat)
    requires j < |rs| && k < |rs| && j != k && rs[k].start == rs[j].End() + |data|
    ensures var after := Without(rs, k)[(if k < j then j - 1 else j) := rs[j].Extend(data).Extend(rs[k].bytes)];
            Kept(rs, after) && Stored(after, Segment(rs[j].End(), data))
  {
    var j' := if k < j then j - 1 else j;
    var e := rs[j].Extend(data);
    var after := Without(rs, k)[j' := e.Extend(rs[k].bytes)];
    EmbedsPrefix(e, rs[k].bytes);
    forall i | 0 <= i < |rs| ensures exists x :: 0 <= x < |after| && Embeds(after[x], rs[i]) {
      if i == j {
        EmbedsPrefix(rs[j], data);
        EmbedsTransitive(after[j'], e, rs[j]);
        assert Embeds(after[j'], rs[i]);
      } else if i == k {
        EmbedsSuffix(e, rs[k]);
        assert Embeds(after[j'], rs[i]);
      } else {
        var x := if i < k then i else i - 1;
        EmbedsSelf(rs[i]);
        assert Embeds(after[x], rs[i]);
      }
    }
    var n := Segment(rs[j].End(), data);
    EmbedsSuffix(rs[j], n);
    EmbedsTransitive(after[j'], e, n);
    assert Embeds(after[j'], n);
  }

  /** A read inside a stored segment returns that segment's bytes. */
  lemma StoredRead(rs: seq<Segment>, s: Segment, lo: nat, hi: nat)
    requires Canonical(rs) && Stored(rs, s) && s.start <= lo <= hi <= s.End()
    ensures Lookup(rs, lo, hi) == Some(Slice(s, lo, hi))
  {
    var x :| 0 <= x < |rs| && Embeds(rs[x], s);
    EmbeddedSlice(rs[x], s, lo, hi);
    LookupAt(rs, x, lo, hi);
  }

  /** Reading the whole of a stored segment returns its bytes. */
  lemma ReadBack(rs: seq<Segment>, s: Segment)
    requires Canonical(rs) && Stored(rs, s)
    ensures Lookup(rs, s.start, s.End()) == Some(s.bytes)
  {
    StoredRead(rs, s, s.start, s.End());
    assert Slice(s, s.start, s.End()) == s.bytes;
  }

  lemma ReadBackChunk(rs: seq<Segment>, addr: nat, data: seq<Byte>)
    requires Canonical(rs) && Stored(rs, Segment(addr, data))
    ensures Lookup(rs, addr, addr + |data|) == Some(data)
  {
    ReadBack(rs, Segment(addr, data));
  }

  /** A read served by segment i of `before` is served alike by `after`. */
  lemma KeptRead(before: seq<Segment>, after: seq<Segment>, i: nat, lo: nat, hi: nat)
    requires Canonical(after) && Kept(before, after)
    requires i < |before| && lo <= hi && Hit(Covers(lo, hi), before[i])
    ensures Lookup(after, lo, hi) == Some(Slice(before[i], lo, hi))
  {
    assert Stored(after, before[i]);
    StoredRead(after, before[i], lo, hi);
  }

  /** After a successful insert every stored segment, and the new chunk, is
      embedded in some segment of the new list: no byte is lost or moved. */
  lemma InsertEmbeds(rs: seq<Segment>, addr: nat, data: seq<Byte>)
    requires 0 < |data| && InsertResult(rs, addr, data).Ok?
    ensures Kept(rs, AfterInsert(rs, addr, data))
    ensures Stored(AfterInsert(rs, addr, data), Segment(addr, data))
  {
    var hi := addr + |data|;
    var n := Segment(addr, data);
    match First(rs, EndsAt(addr)) {
      case None =>
        match First(rs, StartsAt(hi)) {
          case None =>
            InsertPushes(rs, addr, data);
            KeptByPush(rs, n);
          case Some(k) =>
            InsertAbsorbsFollower(rs, addr, data, k);
            KeptByAbsorb(rs, n, k);
        }
      case Some(j) =>
        match First(rs, StartsAt(hi)) {
          case None =>
            InsertExtendsLeft(rs, addr, data, j);
            KeptByExtend(rs, j, data);
          case Some(k) =>
            InsertBridges(rs, addr, data, j, k);
            KeptByBridge(rs, j, data, k);
        }
    }
  }

  /** After a successful insert, reading back the inserted range gives exactly
      the inserted bytes. */
  lemma InsertThenGet(rs: seq<Segment>, addr: nat, data: seq<Byte>)
    requires Canonical(rs) && 0 < |data| && addr + |data| <= U64_MAX
    requires InsertResult(rs, addr, data).Ok?
    ensures Lookup(AfterInsert(rs, addr, data), addr, addr + |data|) == Some(data)
  {
    InsertKeepsCanonical(rs, addr, data);
    InsertEmbeds(rs, addr, data);
    ReadBackChunk(AfterInsert(rs, addr, data), addr, data);
  }

  /** A successful insert changes no read that succeeded before it: every
      byte stored earlier is still returned at its old address. */
  lemma InsertPreservesReads(rs: seq<Segment>, addr: nat, data: seq<Byte>, lo: nat, hi: nat)
    requires Canonical(rs) && 0 < |data| && addr + |data| <= U64_MAX
    requires InsertResult(rs, addr, data).Ok?
    requires lo <= hi && Lookup(rs, lo, hi).Some?
    ensures Lookup(AfterInsert(rs, addr, data), lo, hi) == Lookup(rs, lo, hi)
  {
    InsertKeepsCanonical(rs, addr, data);
    InsertEmbeds(rs, addr, data);
    var i := First(rs, Covers(lo, hi)).value;
    KeptRead(rs, AfterInsert(rs, addr, data), i, lo, hi);
  }

  /** A successful insert stores exactly |data| more bytes. */
  lemma InsertGrowsTotal(rs: seq<Segment>, addr: nat, data: seq<Byte>)
    requires 0 < |data| && InsertResult(rs, addr, data).Ok?
    ensures TotalSize(AfterInsert(rs, addr, data)) == TotalSize(rs) + |data|
  {
    var hi := addr + |data|;
    var n := Segment(addr, data);
    match First(rs, EndsAt(addr)) {
      case None =>
        match First(rs, StartsAt(hi)) {
          case None =>
            InsertPushes(rs, addr, data);
            TotalSizePush(rs, n);
          case Some(k) =>
            InsertAbsorbsFollower(rs, addr, data, k);
            TotalSizeWithout(rs, k);
            TotalSizePush(Without(rs, k), n.Extend(rs[k].bytes));
        }
      case Some(j) =>
        match First(rs, StartsAt(hi)) {
          case None =>
            InsertExtendsLeft(rs, addr, data, j);
            TotalSizeUpdate(rs, j, rs[j].Extend(data));
          case Some(k) =>
            InsertBridges(rs, addr, data, j, k);
            var j' := if k < j then j - 1 else j;
            TotalSizeWithout(rs, k);
            TotalSizeUpdate(Without(rs, k), j', rs[j].Extend(data).Extend(rs[k].bytes));
        }
    }
  }

  /** A rejected insert leaves the list unchanged provided no segment before
      the overlapping one ends at addr. */
  lemma RejectedInsertUnchanged(rs: seq<Segment>, addr: nat, data: seq<Byte>, k: nat)
    requires 0 < |data| && k < |rs| && Overlaps(rs[k], addr, addr + |data|)
    requires forall m :: 0 <= m < k ==> rs[m].End() != addr
    ensures InsertResult(rs, addr, data).Err?
    ensures AfterInsert(rs, addr, data) == rs
  {
    FirstIsEarliest(rs, Meets(addr, addr + |data|));
    FirstIsEarliest(rs, EndsAt(addr));
  }

  /** As written, a rejected insert is not atomic: when a left neighbour comes
      before the first overlapping segment, it has already been extended by
      the time the overlap is found, so the store keeps the rejected bytes and
      is no longer well-formed. */
  lemma RejectedInsertCorrupts(rs: seq<Segment>, addr: nat, data: seq<Byte>, j: nat, k: nat)
    requires Canonical(rs) && 0 < |data|
    requires j < k < |rs| && rs[j].End() == addr && Overlaps(rs[k], addr, addr + |data|)
    requires forall m :: 0 <= m < j ==> !Overlaps(rs[m], addr, addr + |data|)
    ensures InsertResult(rs, addr, data).Err?
    ensures AfterInsert(rs, addr, data) == rs[j := rs[j].Extend(data)]
    ensures !WellFormed(AfterInsert(rs, addr, data))
  {
    var hi := addr + |data|;
    FirstIsEarliest(rs, Meets(addr, hi));
    FirstIsEarliest(rs, EndsAt(addr));
    var k0 := First(rs, Meets(addr, hi)).value;
    var j0 := First(rs, EndsAt(addr)).value;
    EndsAtUnique(rs, j0, j, addr);
    var after := rs[j := rs[j].Extend(data)];
    assert j < k0;
    assert !Separate(after[j], after[k0]);
  }

  /** The rejected insert of the finding, on concrete values: segments at 0
      and 3, and a chunk at 2 that meets the first and overlaps the second. */
  lemma RejectedInsertExample()
    ensures var rs := [Segment(0, [1, 2]), Segment(3, [5, 6])];
            && Canonical(rs)
            && InsertResult(rs, 2, [7, 8]).Err?
            && AfterInsert(rs, 2, [7, 8]) == [Segment(0, [1, 2, 7, 8]), Segment(3, [5, 6])]
            && !WellFormed(AfterInsert(rs, 2, [7, 8]))
  {
    var rs := [Segment(0, [1, 2]), Segment(3, [5, 6])];
    RejectedInsertCorrupts(rs, 2, [7, 8], 0, 1);
    var a: seq<Byte>, b: seq<Byte> := [1, 2], [7, 8];
    assert a + b == [1, 2, 7, 8];
  }

  /** Two chunks apart, a rejected overlapping chunk, then a chunk that
      extends the first segment in place: the list ends with the extended
      segment first and the distant one second. */
  lemma InsertExtendScenario()
    ensures InsertResult([], 0, [1, 2]).Ok?
    ensures AfterInsert([], 0, [1, 2]) == [Segment(0, [1, 2])]
    ensures InsertResult([Segment(0, [1, 2])], 10, [50, 51]).Ok?
    ensures AfterInsert([Segment(0, [1, 2])], 10, [50, 51])
         == [Segment(0, [1, 2]), Segment(10, [50, 51])]
    ensures InsertResult([Segment(0, [1, 2]), Segment(10, [50, 51])], 1, [8, 9]).Err?
    ensures AfterInsert([Segment(0, [1, 2]), Segment(10, [50, 51])], 1, [8, 9])
         == [Segment(0, [1, 2]), Segment(10, [50, 51])]
    ensures InsertResult([Segment(0, [1, 2]), Segment(10, [50, 51])], 2, [3, 4]).Ok?
    ensures AfterInsert([Segment(0, [1, 2]), Segment(10, [50, 51])], 2, [3, 4])
         == [Segment(0, [1, 2, 3, 4]), Segment(10, [50, 51])]
  {
    var a: seq<Byte>, b: seq<Byte>, c: seq<Byte>, d: seq<Byte> := [1, 2], [50, 51], [8, 9], [3, 4];
    InsertPushes([], 0, a);
    var s1 := [Segment(0, a)];
    FirstNone(s1, EndsAt(10));
    FirstNone(s1, StartsAt(12));
    InsertPushes(s1, 10, b);
    var s2 := [Segment(0, a), Segment(10, b)];
    assert s1 + [Segment(10, b)] == s2;
    RejectedInsertUnchanged(s2, 1, c, 0);
    FirstAt(s2, EndsAt(2), 0);
    FirstNone(s2, StartsAt(4));
    assert !Overlaps(s2[0], 2, 4) && !Overlaps(s2[1], 2, 4);
    InsertExtendsLeft(s2, 2, d, 0);
    assert a + d == [1, 2, 3, 4];
  }

  /** A chunk, a rejected chunk overlapping its start, then a chunk that
      ends where the first begins: the first segment is absorbed and one
      segment from 0 remains. */
  lemma InsertPrefixScenario()
    ensures InsertResult([], 2, [3, 4]).Ok?
    ensures AfterInsert([], 2, [3, 4]) == [Segment(2, [3, 4])]
    ensures InsertResult([Segment(2, [3, 4])], 1, [9, 10]).Err?
    ensures AfterInsert([Segment(2, [3, 4])], 1, [9, 10]) == [Segment(2, [3, 4])]
    ensures InsertResult([Segment(2, [3, 4])], 0, [1, 2]).Ok?
    ensures AfterInsert([Segment(2, [3, 4])], 0, [1, 2]) == [Segment(0, [1, 2, 3, 4])]
  {
    var a: seq<Byte>, b: seq<Byte>, c: seq<Byte> := [3, 4], [9, 10], [1, 2];
    InsertPushes([], 2, a);
    var s1 := [Segment(2, a)];
    RejectedInsertUnchanged(s1, 1, b, 0);
    FirstNone(s1, EndsAt(0));
    FirstAt(s1, StartsAt(2), 0);
    assert !Overlaps(s1[0], 0, 2);
    InsertAbsorbsFollower(s1, 0, c, 0);
    assert Without(s1, 0) == [];
    assert c + a == [1, 2, 3, 4];
  }

  /** The corrected insert keeps the store canonical whatever the outcome and
      leaves it unchanged when it reports an overlap; on success it does what
      the insert as written does. */
  lemma CheckedInsertKeepsCanonical(rs: seq<Segment>, addr: nat, data: seq<Byte>)
    requires Canonical(rs) && 0 < |data| && addr + |data| <= U64_MAX
    ensures Canonical(AfterCheckedInsert(rs, addr, data))
    ensures InsertResult(rs, addr, data).Err? ==> AfterCheckedInsert(rs, addr, data) == rs
    ensures InsertResult(rs, addr, data).Ok? ==> AfterCheckedInsert(rs, addr, data) == AfterInsert(rs, addr, data)
  {
    if InsertResult(rs, addr, data).Ok? {
      InsertKeepsCanonical(rs, addr, data);
    }
  }

  // ---------------------------------------------------------------------
  // Sequences of inserts
  // ---------------------------------------------------------------------

  /** One call insert(addr, data). */
  datatype Write = Write(addr: nat, data: seq<Byte>)

  /** The calls the store accepts as arguments: a non-empty chunk whose end
      is a 64-bit address. */
  predicate Fits(w: Write) {
    0 < |w.data| && w.addr + |w.data| <= U64_MAX
  }

  /** The list after the inserts `ws`, in order, each applied as written. */
  function Replay(rs: seq<Segment>, ws: seq<Write>): seq<Segment>
    requires forall k :: 0 <= k < |ws| ==> Fits(ws[k])
    decreases |ws|
  {
    if ws == [] then rs
    else
      assert Fits(ws[0]);
      Replay(AfterInsert(rs, ws[0].addr, ws[0].data), ws[1..])
  }

  /** The list after the inserts `ws`, each applied by the corrected insert. */
  function ReplayChecked(rs: seq<Segment>, ws: seq<Write>): seq<Segment>
    requires forall k :: 0 <= k < |ws| ==> Fits(ws[k])
    decreases |ws|
  {
    if ws == [] then rs
    else
      assert Fits(ws[0]);
      ReplayChecked(AfterCheckedInsert(rs, ws[0].addr, ws[0].data), ws[1..])
  }

  /** Every insert of `ws`, in order, reports success. */
  predicate AllAccepted(rs: seq<Segment>, ws: seq<Write>)
    requires forall k :: 0 <= k < |ws| ==> Fits(ws[k])
    decreases |ws|
  {
    if ws == [] then true
    else
      assert Fits(ws[0]);
      && InsertResult(rs, ws[0].addr, ws[0].data).Ok?
      && AllAccepted(AfterInsert(rs, ws[0].addr, ws[0].data), ws[1..])
  }

  /** Starting from a canonical list (the empty one of a new store, say),
      any run of inserts that all succeed leaves the list canonical. */
  lemma {:induction false} AcceptedInsertsKeepCanonical(rs: seq<Segment>, ws: seq<Write>)
    requires Canonical(rs) && forall k :: 0 <= k < |ws| ==> Fits(ws[k])
    requires AllAccepted(rs, ws)
    ensures Canonical(Replay(rs, ws))
    decreases |ws|
  {
    if ws != [] {
      InsertKeepsCanonical(rs, ws[0].addr, ws[0].data);
      AcceptedInsertsKeepCanonical(AfterInsert(rs, ws[0].addr, ws[0].data), ws[1..]);
    }
  }

  /** With the corrected insert the list stays canonical whatever the
      outcome of each call. */
  lemma {:induction false} CheckedInsertsKeepCanonical(rs: seq<Segment>, ws: seq<Write>)
    requires Canonical(rs) && forall k :: 0 <= k < |ws| ==> Fits(ws[k])
    ensures Canonical(ReplayChecked(rs, ws))
    decreases |ws|
  {
    if ws != [] {
      CheckedInsertKeepsCanonical(rs, ws[0].addr, ws[0].data);
      CheckedInsertsKeepCanonical(AfterCheckedInsert(rs, ws[0].addr, ws[0].data), ws[1..]);
    }
  }

  // ---------------------------------------------------------------------
  // The store
  // ---------------------------------------------------------------------

  class SparseMem {
    var ranges: seq<Segment>

    predicate Valid()
      reads this
    {
      Canonical(ranges)
    }

    /** The default store holds no segment. */
    constructor ()
      ensures Valid() && ranges == []
    {
      ranges := [];
    }

    /** Inserts `data` at `addr`, merging with the segment that ends at `addr`
        and with the one that starts where `data` ends. The source asserts
        that at most one segment ends at `addr`; that assertion is proved here
        from the invariant. */
    method Insert(addr: nat, data: seq<Byte>) returns (res: Result<(), ()>)
      requires Valid()
      requires 0 < |data| && addr + |data| <= U64_MAX
      modifies this
      ensures res == InsertResult(old(ranges), addr, data)
      ensures ranges == AfterInsert(old(ranges), addr, data)
      ensures res.Ok? ==> Valid()
    {
      var end := addr + |data|;
      var appended: Option<nat> := None;
      var i := 0;
      while i < |ranges|
        invariant i <= |ranges| == |old(ranges)|
        invariant forall m :: 0 <= m < i ==> !Hit(Meets(addr, end), old(ranges)[m])
        invariant appended.None? ==> ranges == old(ranges)
        invariant appended.None? ==> forall m :: 0 <= m < i ==> !Hit(EndsAt(addr), old(ranges)[m])
        invariant appended.Some? ==> appended.value < i && First(old(ranges), EndsAt(addr)) == appended
        invariant appended.Some? ==>
                    ranges == old(ranges)[appended.value := old(ranges)[appended.value].Extend(data)]
      {
        var range := ranges[i];
        var rEnd := range.start + |range.bytes|;
        if addr < rEnd && range.start < end {
          ScanRejects(old(ranges), addr, data, i, appended, ranges);
          return Err(());
        }
        if rEnd == addr {
          assert appended.None?;
          FirstAt(old(ranges), EndsAt(addr), i);
          ranges := ranges[i := range.Extend(data)];
          appended := Some(i);
        }
        i := i + 1;
      }

      var target: nat;
      match appended {
        case None =>
          target := |ranges|;
          ranges := ranges + [Segment(addr, data)];
        case Some(a) =>
          target := a;
      }
      ScanAccepts(old(ranges), addr, data, appended, ranges, target);
      ghost var placed := ranges;
      CollectFollower(target, end);
      AcceptedInsert(old(ranges), addr, data, placed, target, ranges);
      res := Ok(());
    }

    /** The second half of `Insert`: the segment that starts where the
        segment at `target` now ends, if any, is removed and its bytes are
        appended to that segment. */
    method CollectFollower(target: nat, end: nat)
      requires target < |ranges| && ranges[target].start < end
      modifies this
      ensures ranges == Absorb(old(ranges), target, end)
    {
      var appended := target;
      var k := 0;
      while k < |ranges|
        invariant ranges == old(ranges) && k <= |ranges| && appended == target
        invariant forall m :: 0 <= m < k ==> !Hit(StartsAt(end), ranges[m])
      {
        if end == ranges[k].start {
          var follower := ranges[k];
          ranges := ranges[..k] + ranges[k + 1..];
          if k < appended {
            appended := appended - 1;
          }
          ranges := ranges[appended := ranges[appended].Extend(follower.bytes)];
          AbsorbAt(old(ranges), target, end, k);
          return;
        }
        k := k + 1;
      }
      AbsorbNone(ranges, target, end);
    }

    /** The corrected insert: it looks for an overlap before changing
        anything, so a rejected insert is atomic. */
    method InsertChecked(addr: nat, data: seq<Byte>) returns (res: Result<(), ()>)
      requires Valid()
      requires 0 < |data| && addr + |data| <= U64_MAX
      modifies this
      ensures res == InsertResult(old(ranges), addr, data)
      ensures ranges == AfterCheckedInsert(old(ranges), addr, data)
      ensures Valid()
    {
      var end := addr + |data|;
      var i := 0;
      while i < |ranges|
        invariant i <= |ranges|
        invariant forall m :: 0 <= m < i ==> !Hit(Meets(addr, end), ranges[m])
      {
        if addr < ranges[i].End() && ranges[i].start < end {
          return Err(());
        }
        i := i + 1;
      }
      res := Insert(addr, data);
    }

    /** The stored segments, in the store's order. */
    method Ranges() returns (r: seq<Segment>)
      ensures r == ranges
    {
      r := ranges;
    }

    /** Reads [lo, hi) from the first segment that holds all of it. */
    method Get(lo: nat, hi: nat) returns (r: Option<seq<Byte>>)
      requires lo <= hi || First(ranges, Covers(lo, hi)).None?
      ensures r == Lookup(ranges, lo, hi)
    {
      var i := 0;
      while i < |ranges|
        invariant i <= |ranges|
        invariant forall m :: 0 <= m < i ==> !Hit(Covers(lo, hi), ranges[m])
      {
        var range := ranges[i];
        if ContainsRange(Range(range.start, range.start + |range.bytes|), Range(lo, hi)) {
          FirstAt(ranges, Covers(lo, hi), i);
          return Some(range.bytes[lo - range.start..hi - range.start]);
        }
        i := i + 1;
      }
      return None;
    }

    /** Indexing: the read must succeed, or the source panics. */
    method Index(lo: nat, hi: nat) returns (r: seq<Byte>)
      requires lo <= hi && exists i :: 0 <= i < |ranges| && Hit(Covers(lo, hi), ranges[i])
      ensures Lookup(ranges, lo, hi) == Some(r)
      ensures |r| == hi - lo
    {
      var found := Get(lo, hi);
      r := found.value;
    }
  }
}
