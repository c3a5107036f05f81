/** The interference-graph allocator: chunks that interfere never share a byte. */
module HeapSimulator {
  import opened Basics
  import opened Sorting

  // ----- live ranges -----

  datatype Range = Range(start: nat, end: nat) {
    predicate Overlaps(other: Range) {
      start <= other.end && end >= other.start
    }
  }

  datatype Buffer = Buffer(size: nat, ranges: seq<Range>, id: string)

  /** Ranges as a sorted list leaves them: proper, and in order of their starts. */
  ghost predicate Ascending(r: seq<Range>)
  {
    && (forall i :: 0 <= i < |r| ==> r[i].start <= r[i].end)
    && (forall i, j :: 0 <= i < j < |r| ==> r[i].start <= r[j].start)
  }

  ghost predicate Overlap(a: Buffer, b: Buffer)
  {
    exists i, j :: 0 <= i < |a.ranges| && 0 <= j < |b.ranges| && a.ranges[i].Overlaps(b.ranges[j])
  }

  /** Statement `x` lies in one of the live ranges, whose ends both count. */
  ghost predicate Live(b: Buffer, x: nat)
  {
    exists i :: 0 <= i < |b.ranges| && b.ranges[i].start <= x <= b.ranges[i].end
  }

  ghost predicate LiveTogether(a: Buffer, b: Buffer)
  {
    exists x: nat :: Live(a, x) && Live(b, x)
  }

  /** Live ranges overlap exactly if there is a statement at which both chunks are live. */
  lemma OverlapIffLiveTogether(a: Buffer, b: Buffer)
    requires Ascending(a.ranges) && Ascending(b.ranges)
    ensures Overlap(a, b) <==> LiveTogether(a, b)
  {
    if Overlap(a, b) {
      var i, j :| 0 <= i < |a.ranges| && 0 <= j < |b.ranges| && a.ranges[i].Overlaps(b.ranges[j]);
      var x := Max(a.ranges[i].start, b.ranges[j].start);
      assert Live(a, x) && Live(b, x);
    }
    if x: nat :| Live(a, x) && Live(b, x) {
      var i :| 0 <= i < |a.ranges| && a.ranges[i].start <= x <= a.ranges[i].end;
      var j :| 0 <= j < |b.ranges| && b.ranges[j].start <= x <= b.ranges[j].end;
      assert a.ranges[i].Overlaps(b.ranges[j]);
    }
  }

  /** The two-pointer scan decides overlap exactly. */
  method Interfere(a: Buffer, b: Buffer) returns (r: bool)
    requires Ascending(a.ranges) && Ascending(b.ranges)
    ensures r <==> Overlap(a, b)
  {
    var i, j := 0, 0;
    while i < |a.ranges| && j < |b.ranges|
      invariant 0 <= i <= |a.ranges| && 0 <= j <= |b.ranges|
      invariant forall k, l :: 0 <= k < |a.ranges| && 0 <= l < |b.ranges| && (k < i || l < j) ==>
                  !a.ranges[k].Overlaps(b.ranges[l])
      decreases |a.ranges| - i + |b.ranges| - j
    {
      if a.ranges[i].Overlaps(b.ranges[j]) {
        return true;
      }
      if a.ranges[i].end < b.ranges[j].end {
        i := i + 1;
      } else {
        j := j + 1;
      }
    }
    return false;
  }

  // ----- alignment -----

  function AlignUp(x: nat, alignment: nat): nat {
    if alignment == 0 then x else (x + alignment - 1) / alignment * alignment
  }

  predicate Aligned(x: nat, alignment: nat) {
    alignment == 0 || x % alignment == 0
  }

  /** Rounding up gives the least aligned number that is large enough. */
  lemma AlignUpIsLeast(x: nat, alignment: nat)
    ensures Aligned(AlignUp(x, alignment), alignment) && x <= AlignUp(x, alignment)
    ensures forall y: nat :: Aligned(y, alignment) && x <= y ==> AlignUp(x, alignment) <= y
  {
    if alignment != 0 {
      var q := (x + alignment - 1) / alignment;
      MultipleIsAligned(q, alignment);
      forall y: nat | Aligned(y, alignment) && x <= y
        ensures q * alignment <= y
      {
        var p := y / alignment;
        if p < q {
          ScaleMonotone(p + 1, q, alignment);
        } else {
          ScaleMonotone(q, p, alignment);
        }
      }
    }
  }

  lemma QuotientGap(a: nat, d: int, d': int)
    requires d < d'
    ensures d * a + a <= d' * a
  {
    assert (d' - d - 1) * a == d' * a - d * a - a;
  }

  /** Quotient and remainder are unique. */
  lemma DivisionIsUnique(a: nat, d: int, r: nat, d': int, r': nat)
    requires d * a + r == d' * a + r' && r < a && r' < a
    ensures d == d' && r == r'
  {
    if d < d' {
      QuotientGap(a, d, d');
    } else if d' < d {
      QuotientGap(a, d', d);
    }
  }

  lemma MultipleIsAligned(q: nat, a: nat)
    requires a != 0
    ensures q * a % a == 0
  {
    DivisionIsUnique(a, q, 0, q * a / a, q * a % a);
  }

  lemma ScaleMonotone(p: nat, q: nat, a: nat)
    requires p <= q
    ensures p * a <= q * a
  {
  }

  lemma AlignUpZero(alignment: nat)
    ensures AlignUp(0, alignment) == 0
  {
    AlignUpIsLeast(0, alignment);
    assert Aligned(0, alignment);
  }

  lemma AlignUpMonotone(x: nat, y: nat, alignment: nat)
    requires x <= y
    ensures AlignUp(x, alignment) <= AlignUp(y, alignment)
  {
    AlignUpIsLeast(x, alignment);
    AlignUpIsLeast(y, alignment);
  }

  lemma AlignUpShifts(x: nat, y: nat, alignment: nat)
    requires Aligned(x, alignment)
    ensures AlignUp(x + y, alignment) == x + AlignUp(y, alignment)
  {
    if alignment != 0 {
      var k, n := x / alignment, y + alignment - 1;
      assert (k + n / alignment) * alignment == k * alignment + n / alignment * alignment;
      DivisionIsUnique(alignment, k + n / alignment, n % alignment, (x + n) / alignment, (x + n) % alignment);
    }
  }

  // ----- placing one chunk -----

  type Span = (nat, nat)

  predicate SpanLess(a: Span, b: Span) {
    a.0 < b.0 || (a.0 == b.0 && a.1 < b.1)
  }

  /** Bytes `pos .. pos + size` stay clear of every span. */
  ghost predicate Clear(pos: nat, size: nat, spans: seq<Span>)
  {
    forall k :: 0 <= k < |spans| ==> pos + size <= spans[k].0 || spans[k].1 <= pos
  }

  ghost predicate Proper(spans: seq<Span>)
  {
    forall k :: 0 <= k < |spans| ==> spans[k].0 <= spans[k].1
  }

  ghost predicate Positive(spans: seq<Span>)
  {
    forall k :: 0 <= k < |spans| ==> spans[k].0 < spans[k].1
  }

  ghost predicate Separated(spans: seq<Span>)
  {
    Proper(spans) && forall i, j :: 0 <= i < j < |spans| ==> spans[i].1 < spans[j].0
  }

  ghost predicate Within(spans: seq<Span>, x: nat)
  {
    exists k :: 0 <= k < |spans| && spans[k].0 <= x < spans[k].1
  }

  ghost predicate EndsOneOf(spans: seq<Span>, x: nat)
  {
    exists k :: 0 <= k < |spans| && spans[k].1 == x
  }

  /** Some merged span contains the whole of `s`. */
  ghost predicate Engulfed(merged: seq<Span>, s: Span)
  {
    exists m :: 0 <= m < |merged| && merged[m].0 <= s.0 && s.1 <= merged[m].1
  }

  /** Adds the next span in order, joining it to the last one when they touch. */
  function Absorb(merged: seq<Span>, current: Span): (r: seq<Span>)
    requires |merged| > 0
    ensures |r| > 0
  {
    var last := merged[|merged| - 1];
    if current.0 <= last.1 then merged[|merged| - 1 := (last.0, Max(last.1, current.1))] else merged + [current]
  }

  lemma AbsorbSeparates(merged: seq<Span>, current: Span)
    requires |merged| > 0 && Separated(merged) && current.0 <= current.1
    requires merged[|merged| - 1].0 <= current.0
    ensures Separated(Absorb(merged, current)) && Absorb(merged, current)[|Absorb(merged, current)| - 1].0 <= current.0
    ensures Positive(merged) && current.0 < current.1 ==> Positive(Absorb(merged, current))
  {
  }

  lemma AbsorbEnds(merged: seq<Span>, current: Span, spans: seq<Span>, j: nat)
    requires |merged| > 0 && j < |spans| && current == spans[j]
    requires forall m :: 0 <= m < |merged| ==> EndsOneOf(spans, merged[m].1)
    ensures forall m :: 0 <= m < |Absorb(merged, current)| ==> EndsOneOf(spans, Absorb(merged, current)[m].1)
  {
    assert EndsOneOf(spans, current.1);
  }

  lemma AbsorbEngulfs(merged: seq<Span>, current: Span, spans: seq<Span>, j: nat)
    requires |merged| > 0 && j < |spans| && current == spans[j] && merged[|merged| - 1].0 <= current.0
    requires forall k :: 0 <= k < j ==> Engulfed(merged, spans[k])
    ensures forall k :: 0 <= k < j + 1 ==> Engulfed(Absorb(merged, current), spans[k])
  {
    var r := Absorb(merged, current);
    forall k | 0 <= k < j + 1 ensures Engulfed(r, spans[k])
    {
      if k == j {
        assert r[|r| - 1].0 <= spans[k].0 && spans[k].1 <= r[|r| - 1].1;
      } else {
        assert Engulfed(merged, spans[k]);
        var m :| 0 <= m < |merged| && merged[m].0 <= spans[k].0 && spans[k].1 <= merged[m].1;
        assert r[m].0 <= spans[k].0 && spans[k].1 <= r[m].1;
      }
    }
  }

  lemma AbsorbCovers(merged: seq<Span>, current: Span, spans: seq<Span>, j: nat)
    requires |merged| > 0 && j < |spans| && current == spans[j] && merged[|merged| - 1].0 <= current.0
    requires forall x :: Within(merged, x) <==> Within(spans[..j], x)
    ensures forall x :: Within(Absorb(merged, current), x) <==> Within(spans[..j + 1], x)
  {
    var n, last := |merged| - 1, merged[|merged| - 1];
    var joined: Span := (last.0, Max(last.1, current.1));
    forall x ensures Within(Absorb(merged, current), x) <==> Within(spans[..j + 1], x)
    {
      assert merged == merged[..n] + [last] && merged[n := joined] == merged[..n] + [joined];
      WithinAppend(merged, current, x);
      WithinAppend(merged[..n], last, x);
      WithinAppend(merged[..n], joined, x);
      WithinAppend(spans[..j], current, x);
      assert spans[..j + 1] == spans[..j] + [current];
    }
  }

  /** `merged` stands for the first `j` spans. */
  ghost predicate Merges(merged: seq<Span>, spans: seq<Span>, j: nat)
    requires j <= |spans|
  {
    && Separated(merged)
    && (forall x :: Within(merged, x) <==> Within(spans[..j], x))
    && (forall k :: 0 <= k < j ==> Engulfed(merged, spans[k]))
    && (forall m :: 0 <= m < |merged| ==> EndsOneOf(spans, merged[m].1))
    && (Positive(spans) ==> Positive(merged))
  }

  lemma AbsorbMerges(merged: seq<Span>, current: Span, spans: seq<Span>, j: nat)
    requires j < |spans| && Merges(merged, spans, j) && Proper(spans) && current == spans[j]
    requires |merged| > 0 && merged[|merged| - 1].0 <= current.0
    ensures Merges(Absorb(merged, current), spans, j + 1)
    ensures Absorb(merged, current)[|Absorb(merged, current)| - 1].0 <= current.0
  {
    AbsorbSeparates(merged, current);
    AbsorbEnds(merged, current, spans, j);
    AbsorbEngulfs(merged, current, spans, j);
    AbsorbCovers(merged, current, spans, j);
  }

  lemma FirstMerges(spans: seq<Span>)
    requires spans != [] && Proper(spans)
    ensures Merges([spans[0]], spans, 1)
  {
    assert spans[..1] == [spans[0]];
    assert Engulfed([spans[0]], spans[0]) by { assert [spans[0]][0] == spans[0]; }
  }

  /** Merged spans cover the same bytes as the given ones, leave gaps, and end where one of those ended. */
  method MergeSpans(spans: seq<Span>) returns (merged: seq<Span>)
    requires Proper(spans) && SortedBy(SpanLess, spans)
    ensures Merges(merged, spans, |spans|)
  {
    if spans == [] {
      return [];
    }
    merged := [spans[0]];
    FirstMerges(spans);
    for j := 1 to |spans|
      invariant |merged| > 0 && merged[|merged| - 1].0 <= spans[j - 1].0
      invariant Merges(merged, spans, j)
    {
      var last, current := merged[|merged| - 1], spans[j];
      assert !SpanLess(spans[j], spans[j - 1]);
      AbsorbMerges(merged, current, spans, j);
      if current.0 <= last.1 {
        merged := merged[|merged| - 1 := (last.0, Max(last.1, current.1))];
      } else {
        merged := merged + [current];
      }
    }
  }

  lemma WithinAppend(spans: seq<Span>, s: Span, x: nat)
    ensures Within(spans + [s], x) <==> Within(spans, x) || s.0 <= x < s.1
  {
    if Within(spans, x) {
      var k :| 0 <= k < |spans| && spans[k].0 <= x < spans[k].1;
      assert (spans + [s])[k] == spans[k];
    }
    if s.0 <= x < s.1 {
      assert (spans + [s])[|spans|] == s;
    }
  }

  /** `pos` is the least aligned offset where `size` bytes stay clear of the spans. */
  ghost predicate LeastClear(pos: nat, size: nat, alignment: nat, spans: seq<Span>)
  {
    && Aligned(pos, alignment) && Clear(pos, size, spans)
    && (forall q: nat {:trigger Clear(q, size, spans)} :: q < pos && Aligned(q, alignment) ==> !Clear(q, size, spans))
  }

  method FindPosition(spans: seq<Span>, size: nat, alignment: nat) returns (pos: nat, found: bool)
    requires Separated(spans)
    ensures found && LeastClear(pos, size, alignment, spans)
    ensures pos == 0 || exists k :: 0 <= k < |spans| && pos == AlignUp(spans[k].1, alignment)
  {
    pos := AlignUp(0, alignment);
    AlignUpIsLeast(0, alignment);
    assert Aligned(0, alignment);
    found := false;
    var j := 0;
    while j <= |spans|
      invariant 0 <= j <= |spans|
      invariant pos == if j == 0 then 0 else AlignUp(spans[j - 1].1, alignment)
      invariant Aligned(pos, alignment)
      invariant forall k :: 0 <= k < j ==> spans[k].1 <= pos
      invariant forall q: nat :: q < pos && Aligned(q, alignment) ==>
                  exists k :: 0 <= k < j && q + size > spans[k].0 && spans[k].1 > q
      decreases |spans| - j
    {
      if j == |spans| || pos + size <= spans[j].0 {
        found := true;
        break;
      }
      ghost var before := pos;
      pos := AlignUp(spans[j].1, alignment);
      AlignUpIsLeast(spans[j].1, alignment);
      if j > 0 { AlignUpMonotone(spans[j - 1].1, spans[j].1, alignment); }
      forall q: nat | q < pos && Aligned(q, alignment)
        ensures exists k :: 0 <= k < j + 1 && q + size > spans[k].0 && spans[k].1 > q
      {
        if q >= before {
          assert q + size > spans[j].0 && spans[j].1 > q;
        }
      }
      j := j + 1;
    }
    forall k | 0 <= k < |spans| ensures pos + size <= spans[k].0 || spans[k].1 <= pos
    {
      if j < k { assert spans[j].0 <= spans[j].1 < spans[k].0; }
    }
  }

  /** Merging never makes room. */
  lemma MergedIsTighter(spans: seq<Span>, merged: seq<Span>, pos: nat, size: nat)
    requires forall k :: 0 <= k < |spans| ==> Engulfed(merged, spans[k])
    requires Clear(pos, size, merged)
    ensures Clear(pos, size, spans)
  {
  }

  /** And it takes none from a chunk of positive size. */
  lemma MergedIsExact(spans: seq<Span>, merged: seq<Span>, pos: nat, size: nat)
    requires forall x :: Within(merged, x) <==> Within(spans, x)
    requires Positive(merged) && size > 0 && !Clear(pos, size, merged)
    ensures !Clear(pos, size, spans)
  {
    var m :| 0 <= m < |merged| && pos + size > merged[m].0 && merged[m].1 > pos;
    var x := Max(pos, merged[m].0);
    assert Within(merged, x) by { assert merged[m].0 <= x < merged[m].1; }
    var k :| 0 <= k < |spans| && spans[k].0 <= x < spans[k].1;
  }

  // ----- the order of placement -----

  predicate StringLess(a: string, b: string) {
    if b == [] then false
    else if a == [] then true
    else a[0] < b[0] || (a[0] == b[0] && StringLess(a[1..], b[1..]))
  }

  lemma {:induction false} StringOrder(a: string, b: string, c: string)
    ensures StringLess(a, b) ==> !StringLess(b, a)
    ensures !StringLess(b, a) && !StringLess(c, b) ==> !StringLess(c, a)
    ensures !StringLess(a, b) && !StringLess(b, a) ==> a == b
  {
    if a != [] && b != [] {
      StringOrder(a[1..], b[1..], if c == [] then [] else c[1..]);
      assert a == [a[0]] + a[1..] && b == [b[0]] + b[1..];
    }
  }

  /** `a` and `b` agree on the first `k` characters, and then `a` ends or has the smaller character. */
  ghost predicate DiffersAt(a: string, b: string, k: nat)
  {
    k <= |a| && k < |b| && a[..k] == b[..k] && (k == |a| || a[k] < b[k])
  }

  /** Names are in the order of a dictionary. */
  lemma {:induction false} StringLessIffDiffers(a: string, b: string)
    ensures StringLess(a, b) <==> exists k: nat :: DiffersAt(a, b, k)
  {
    if a != [] && b != [] {
      StringLessIffDiffers(a[1..], b[1..]);
      if k: nat :| DiffersAt(a[1..], b[1..], k) && a[0] == b[0] {
        assert a[..k + 1] == [a[0]] + a[1..][..k] && b[..k + 1] == [b[0]] + b[1..][..k];
        assert DiffersAt(a, b, k + 1);
      }
      if a[0] < b[0] { assert DiffersAt(a, b, 0); }
      if k: nat :| DiffersAt(a, b, k) && k > 0 {
        assert a[..k][0] == b[..k][0];
        assert a[1..][..k - 1] == a[..k][1..] && b[1..][..k - 1] == b[..k][1..];
        assert DiffersAt(a[1..], b[1..], k - 1);
      }
    } else if b != [] {
      assert DiffersAt(a, b, 0);
    }
  }

  /** Larger chunks are placed first, ties broken by name. */
  predicate PlacedBefore(a: Buffer, b: Buffer) {
    a.size > b.size || (a.size == b.size && StringLess(a.id, b.id))
  }

  lemma PlacedBeforeIsComparison()
    ensures Comparison(PlacedBefore)
  {
    forall a, b, c
      ensures PlacedBefore(a, b) ==> !PlacedBefore(b, a)
      ensures !PlacedBefore(b, a) && !PlacedBefore(c, b) ==> !PlacedBefore(c, a)
    {
      StringOrder(a.id, b.id, c.id);
    }
  }

  lemma SpanLessIsComparison()
    ensures Comparison(SpanLess)
  {
  }

  // ----- interference -----

  type Relation = (string, string) -> bool

  datatype Callbacks = Callbacks(hbOverride: Option<Relation>, mustInterfere: Option<Relation>,
                                 explicit: Option<Relation>)

  /** Whether two chunks interfere: as an explicit relation says, or else by their live ranges
    as corrected by the happens-before callbacks. */
  ghost predicate Interferes(cb: Callbacks, a: Buffer, b: Buffer) {
    match cb.explicit
    case Some(relation) => relation(a.id, b.id)
    case None =>
      if Overlap(a, b) then !(cb.hbOverride.Some? && cb.hbOverride.value(a.id, b.id))
      else cb.mustInterfere.Some? && cb.mustInterfere.value(a.id, b.id)
  }

  method DecideInterference(cb: Callbacks, a: Buffer, b: Buffer) returns (r: bool)
    requires cb.explicit.None? ==> Ascending(a.ranges) && Ascending(b.ranges)
    ensures r == Interferes(cb, a, b)
  {
    if cb.explicit.Some? {
      return cb.explicit.value(a.id, b.id);
    }
    var overlap := Interfere(a, b);
    if overlap {
      r := !(cb.hbOverride.Some? && cb.hbOverride.value(a.id, b.id));
    } else {
      r := cb.mustInterfere.Some? && cb.mustInterfere.value(a.id, b.id);
    }
  }

  ghost predicate GraphUpTo(g: array2<bool>, chunks: seq<Buffer>, cb: Callbacks, rows: nat, columns: nat)
    requires g.Length0 == g.Length1 == |chunks|
    reads g
  {
    forall i, j :: 0 <= i < j < |chunks| && (i < rows || (i == rows && j < columns)) ==>
      g[i, j] == Interferes(cb, chunks[i], chunks[j]) && g[j, i] == g[i, j]
  }

  /** Live ranges are looked at, and have to be in order, only without an explicit relation. */
  ghost predicate RangesInOrder(chunks: seq<Buffer>, cb: Callbacks) {
    cb.explicit.None? ==> forall k :: 0 <= k < |chunks| ==> Ascending(chunks[k].ranges)
  }

  method BuildInterference(chunks: seq<Buffer>, cb: Callbacks) returns (g: array2<bool>)
    requires RangesInOrder(chunks, cb)
    ensures fresh(g) && g.Length0 == g.Length1 == |chunks|
    ensures GraphUpTo(g, chunks, cb, |chunks|, 0)
  {
    var n := |chunks|;
    g := new bool[n, n]((_, _) => false);
    for i := 0 to n
      invariant GraphUpTo(g, chunks, cb, i, 0)
    {
      for j := i + 1 to n
        invariant GraphUpTo(g, chunks, cb, i, j)
      {
        var b := DecideInterference(cb, chunks[i], chunks[j]);
        g[i, j] := b;
        g[j, i] := b;
      }
    }
  }

  // ----- the allocation -----

  datatype Result = Result(offsets: map<string, nat>, heapSize: nat)

  ghost predicate UniqueIds(chunks: seq<Buffer>)
  {
    forall i, j :: 0 <= i < j < |chunks| ==> chunks[i].id != chunks[j].id
  }

  predicate Apart(p: nat, m: nat, q: nat, n: nat) {
    p + m <= q || q + n <= p
  }

  /** Placing chunk `k` at `pos` keeps it apart from every earlier chunk it interferes with. */
  ghost predicate ApartFromEarlier(chunks: seq<Buffer>, cb: Callbacks, at: map<nat, nat>, k: nat, pos: nat)
    requires k < |chunks| && forall j :: 0 <= j < k ==> j in at
  {
    forall j :: 0 <= j < k && Interferes(cb, chunks[j], chunks[k]) ==> Apart(pos, chunks[k].size, at[j], chunks[j].size)
  }

  /** Chunk `k` sits at the least aligned offset apart from the earlier chunks it interferes with. */
  ghost predicate BestFit(chunks: seq<Buffer>, cb: Callbacks, alignment: nat, at: map<nat, nat>, k: nat)
    requires k < |chunks| && forall j :: 0 <= j <= k ==> j in at
  {
    && Aligned(at[k], alignment)
    && ApartFromEarlier(chunks, cb, at, k, at[k])
    && (forall q: nat {:trigger ApartFromEarlier(chunks, cb, at, k, q)} ::
          q < at[k] && Aligned(q, alignment) ==> !ApartFromEarlier(chunks, cb, at, k, q))
  }

  ghost predicate SpanOfEarlier(chunks: seq<Buffer>, at: map<nat, nat>, i: nat, s: Span)
    requires i <= |chunks| && forall j :: 0 <= j < i ==> j in at
  {
    exists j :: 0 <= j < i && s.0 == at[j] && s.1 == at[j] + chunks[j].size
  }

  /** The spans of the earlier chunks that chunk `i` interferes with. */
  method Forbidden(chunks: seq<Buffer>, cb: Callbacks, g: array2<bool>, at: map<nat, nat>, i: nat)
    returns (spans: seq<Span>)
    requires i < |chunks| && g.Length0 == g.Length1 == |chunks| && GraphUpTo(g, chunks, cb, |chunks|, 0)
    requires forall j :: 0 <= j < i ==> j in at
    ensures forall pos: nat :: Clear(pos, chunks[i].size, spans) <==> ApartFromEarlier(chunks, cb, at, i, pos)
    ensures forall k :: 0 <= k < |spans| ==> SpanOfEarlier(chunks, at, i, spans[k])
  {
    spans := [];
    for j := 0 to i
      invariant forall pos: nat :: Clear(pos, chunks[i].size, spans) <==>
                  forall l :: 0 <= l < j && Interferes(cb, chunks[l], chunks[i]) ==>
                    Apart(pos, chunks[i].size, at[l], chunks[l].size)
      invariant forall k :: 0 <= k < |spans| ==> SpanOfEarlier(chunks, at, j, spans[k])
    {
      assert g[i, j] == Interferes(cb, chunks[j], chunks[i]);
      if g[i, j] && j in at {
        ghost var before := spans;
        var span: Span := (at[j], at[j] + chunks[j].size);
        spans := spans + [span];
        forall pos: nat
          ensures Clear(pos, chunks[i].size, spans) <==>
                    Clear(pos, chunks[i].size, before) && Apart(pos, chunks[i].size, at[j], chunks[j].size)
        {
          assert forall k :: 0 <= k < |before| ==> spans[k] == before[k];
          assert spans[|before|] == span;
        }
      }
    }
    forall pos: nat
      ensures Clear(pos, chunks[i].size, spans) <==> ApartFromEarlier(chunks, cb, at, i, pos)
    {
    }
  }

  lemma ClearOfFewer(spans: seq<Span>, fewer: seq<Span>, pos: nat, size: nat)
    requires forall x :: x in fewer ==> x in spans
    requires Clear(pos, size, spans)
    ensures Clear(pos, size, fewer)
  {
    forall k | 0 <= k < |fewer| ensures pos + size <= fewer[k].0 || fewer[k].1 <= pos
    {
      assert fewer[k] in spans;
    }
  }

  lemma SortedSpans(spans: seq<Span>) returns (sorted: seq<Span>)
    requires Proper(spans)
    ensures sorted == Sort(spans, SpanLess) && SortedBy(SpanLess, sorted) && Proper(sorted)
    ensures Positive(spans) ==> Positive(sorted)
    ensures forall pos: nat, size: nat :: Clear(pos, size, spans) <==> Clear(pos, size, sorted)
    ensures forall x :: EndsOneOf(sorted, x) ==> EndsOneOf(spans, x)
  {
    sorted := Sort(spans, SpanLess);
    SpanLessIsComparison();
    SortSorts(spans, SpanLess);
    SameElements(spans, sorted);
    forall k | 0 <= k < |sorted|
      ensures sorted[k].0 <= sorted[k].1 && (Positive(spans) ==> sorted[k].0 < sorted[k].1)
      ensures EndsOneOf(spans, sorted[k].1)
    {
      assert sorted[k] in spans;
      var j :| 0 <= j < |spans| && spans[j] == sorted[k];
    }
    forall pos: nat, size: nat ensures Clear(pos, size, spans) <==> Clear(pos, size, sorted)
    {
      if Clear(pos, size, spans) { ClearOfFewer(spans, sorted, pos, size); }
      if Clear(pos, size, sorted) { ClearOfFewer(sorted, spans, pos, size); }
    }
  }

  /** The least offset among the given spans. A chunk of size 0 fits at 0. */
  method FitAmong(spans: seq<Span>, size: nat, alignment: nat) returns (pos: nat, found: bool)
    requires Proper(spans) && (size > 0 ==> Positive(spans))
    ensures found && LeastClear(pos, size, alignment, spans)
    ensures pos == 0 || exists x :: EndsOneOf(spans, x) && pos == AlignUp(x, alignment)
  {
    var sorted := Sort(spans, SpanLess);
    ghost var same := SortedSpans(spans);
    var merged := MergeSpans(sorted);
    pos, found := FindPosition(merged, size, alignment);
    MergedIsTighter(sorted, merged, pos, size);
    if size > 0 {
      forall q: nat | q < pos && Aligned(q, alignment) ensures !Clear(q, size, spans)
      {
        MergedIsExact(sorted, merged, q, size);
      }
    } else {
      assert Aligned(0, alignment) && Clear(0, size, merged);
      assert pos == 0;
    }
    if pos != 0 {
      ghost var k :| 0 <= k < |merged| && pos == AlignUp(merged[k].1, alignment);
      assert EndsOneOf(sorted, merged[k].1);
    }
  }

  function AlignedSizes(chunks: seq<Buffer>, alignment: nat): (sizes: seq<nat>)
    ensures |sizes| == |chunks|
  {
    seq(|chunks|, k requires 0 <= k < |chunks| => AlignUp(chunks[k].size, alignment))
  }

  ghost predicate Pads(chunks: seq<Buffer>, alignment: nat, sizes: seq<nat>)
  {
    && |sizes| == |chunks|
    && (forall k {:trigger AlignUp(chunks[k].size, alignment)} :: 0 <= k < |chunks| ==>
        sizes[k] == AlignUp(chunks[k].size, alignment))
  }

  /** `pos` is zero or where the padded bytes of an earlier chunk end. */
  ghost predicate FollowsEarlier(sizes: seq<nat>, at: map<nat, nat>, i: nat, pos: nat)
    requires i <= |sizes| && forall j :: 0 <= j < i ==> j in at
  {
    pos == 0 || exists j :: 0 <= j < i && pos == at[j] + sizes[j]
  }

  /** Where the allocator puts chunk `i`. */
  method Place(chunks: seq<Buffer>, cb: Callbacks, alignment: nat, g: array2<bool>, at: map<nat, nat>, i: nat,
               ghost sizes: seq<nat>)
    returns (pos: nat, found: bool)
    requires Pads(chunks, alignment, sizes)
    requires i < |chunks| && g.Length0 == g.Length1 == |chunks| && GraphUpTo(g, chunks, cb, |chunks|, 0)
    requires forall j :: 0 <= j < i ==> j in at && chunks[i].size <= chunks[j].size && Aligned(at[j], alignment)
    ensures found && BestFit(chunks, cb, alignment, at[i := pos], i)
    ensures FollowsEarlier(sizes, at, i, pos)
  {
    var spans := Forbidden(chunks, cb, g, at, i);
    pos, found := FitAmong(spans, chunks[i].size, alignment);
    FitIsBest(chunks, cb, alignment, at, i, spans, pos);
    FitFollowsEarlier(chunks, alignment, sizes, at, i, spans, pos);
  }

  lemma FitFollowsEarlier(chunks: seq<Buffer>, alignment: nat, sizes: seq<nat>, at: map<nat, nat>, i: nat,
                          spans: seq<Span>, pos: nat)
    requires Pads(chunks, alignment, sizes)
    requires i < |chunks| && forall j :: 0 <= j < i ==> j in at && Aligned(at[j], alignment)
    requires forall k :: 0 <= k < |spans| ==> SpanOfEarlier(chunks, at, i, spans[k])
    requires pos == 0 || exists x :: EndsOneOf(spans, x) && pos == AlignUp(x, alignment)
    ensures FollowsEarlier(sizes, at, i, pos)
  {
    if pos != 0 {
      var x :| EndsOneOf(spans, x) && pos == AlignUp(x, alignment);
      var k :| 0 <= k < |spans| && spans[k].1 == x;
      assert SpanOfEarlier(chunks, at, i, spans[k]);
      var j: nat :| j < i && spans[k].1 == at[j] + chunks[j].size;
      AlignUpShifts(at[j], chunks[j].size, alignment);
    }
  }

  lemma FitIsBest(chunks: seq<Buffer>, cb: Callbacks, alignment: nat, at: map<nat, nat>, i: nat, spans: seq<Span>,
                  pos: nat)
    requires i < |chunks| && forall j :: 0 <= j < i ==> j in at
    requires forall q: nat :: Clear(q, chunks[i].size, spans) <==> ApartFromEarlier(chunks, cb, at, i, q)
    requires LeastClear(pos, chunks[i].size, alignment, spans)
    ensures BestFit(chunks, cb, alignment, at[i := pos], i)
  {
    var at' := at[i := pos];
    forall q: nat {:trigger ApartFromEarlier(chunks, cb, at', i, q)}
      ensures ApartFromEarlier(chunks, cb, at', i, q) <==> Clear(q, chunks[i].size, spans)
    {
      assert ApartFromEarlier(chunks, cb, at, i, q) <==> Clear(q, chunks[i].size, spans);
    }
    assert at'[i] == pos && ApartFromEarlier(chunks, cb, at', i, pos);
  }

  // ----- how large the heap gets -----

  function Sum(s: seq<nat>): nat
    decreases |s|
  {
    if s == [] then 0 else Sum(s[..|s| - 1]) + s[|s| - 1]
  }

  lemma {:induction false} SumsGrow(s: seq<nat>, j: nat, k: nat)
    requires j <= k <= |s|
    ensures Sum(s[..j]) <= Sum(s[..k])
    decreases k
  {
    if j < k {
      SumsGrow(s, j, k - 1);
      assert s[..k][..k - 1] == s[..k - 1];
    }
  }

  lemma SumOfPrefix(s: seq<nat>, k: nat)
    requires k < |s|
    ensures Sum(s[..k + 1]) == Sum(s[..k]) + s[k]
  {
    assert s[..k + 1][..k] == s[..k];
  }

  lemma {:induction false} SumOfConcat(s: seq<nat>, t: seq<nat>)
    ensures Sum(s + t) == Sum(s) + Sum(t)
    decreases |t|
  {
    if t == [] {
      assert s + t == s;
    } else {
      SumOfConcat(s, t[..|t| - 1]);
      assert (s + t)[..|s + t| - 1] == s + t[..|t| - 1];
    }
  }

  /** Sorting the chunks does not change the sum of their sizes. */
  lemma {:induction false} SumOfSort(s: seq<Buffer>, alignment: nat)
    ensures Sum(AlignedSizes(Sort(s, PlacedBefore), alignment)) == Sum(AlignedSizes(s, alignment))
  {
    if s != [] {
      SumOfSort(s[1..], alignment);
      SumOfInsert(s[0], Sort(s[1..], PlacedBefore), alignment);
      SumOfHead(s, alignment);
    }
  }

  lemma SumOfHead(s: seq<Buffer>, alignment: nat)
    requires s != []
    ensures Sum(AlignedSizes(s, alignment)) == AlignUp(s[0].size, alignment) + Sum(AlignedSizes(s[1..], alignment))
  {
    var head := [AlignUp(s[0].size, alignment)];
    assert AlignedSizes(s, alignment) == head + AlignedSizes(s[1..], alignment);
    SumOfConcat(head, AlignedSizes(s[1..], alignment));
    assert Sum(head) == Sum(head[..0]) + head[0];
  }

  lemma {:induction false} SumOfInsert(x: Buffer, s: seq<Buffer>, alignment: nat)
    ensures Sum(AlignedSizes(Insert(x, s, PlacedBefore), alignment))
            == AlignUp(x.size, alignment) + Sum(AlignedSizes(s, alignment))
  {
    var r := Insert(x, s, PlacedBefore);
    SumOfHead(r, alignment);
    if s != [] && !PlacedBefore(x, s[0]) {
      SumOfInsert(x, s[1..], alignment);
      SumOfHead(s, alignment);
      assert r[1..] == Insert(x, s[1..], PlacedBefore);
    } else {
      assert r[1..] == s;
    }
  }

  function PlacementOrder(chunks: seq<Buffer>): seq<Buffer> {
    Sort(chunks, PlacedBefore)
  }

  ghost function Ids(chunks: seq<Buffer>): set<string> {
    set k | 0 <= k < |chunks| :: chunks[k].id
  }

  /** The keys of `at` are the first `i` numbers. */
  ghost predicate Numbered(at: map<nat, nat>, i: nat) {
    forall k: nat :: k in at <==> k < i
  }

  /** Offsets by position in the order of placement. */
  ghost function Positions(order: seq<Buffer>, offsets: map<string, nat>): (at: map<nat, nat>)
    requires Ids(order) <= offsets.Keys
    ensures Numbered(at, |order|)
  {
    map k: nat | 0 <= k < |order| :: (assert order[k].id in Ids(order); offsets[order[k].id])
  }

  ghost predicate EndsHeap(order: seq<Buffer>, at: map<nat, nat>, k: nat, top: nat)
  {
    k < |order| && k in at && top == at[k] + order[k].size
  }

  /** `top` is where the last of the first `i` chunks ends. */
  ghost predicate Topped(order: seq<Buffer>, at: map<nat, nat>, top: nat, i: nat)
    requires i <= |order| && Numbered(at, i)
  {
    && (forall k :: 0 <= k < i ==> at[k] + order[k].size <= top)
    && (if i == 0 then top == 0 else exists k :: EndsHeap(order, at, k, top))
  }

  /** The heap is exactly as large as its last byte and the alignment ask for. */
  ghost predicate HeapIsTight(order: seq<Buffer>, at: map<nat, nat>, alignment: nat, heapSize: nat)
    requires Numbered(at, |order|)
  {
    exists top: nat :: Topped(order, at, top, |order|) && heapSize == AlignUp(top, alignment)
  }

  ghost predicate IsAllocation(chunks: seq<Buffer>, cb: Callbacks, alignment: nat, r: Result)
  {
    var order := PlacementOrder(chunks);
    && r.offsets.Keys == Ids(order)
    && Fitted(order, cb, alignment, Positions(order, r.offsets), |order|)
    && HeapIsTight(order, Positions(order, r.offsets), alignment, r.heapSize)
    && r.heapSize <= Sum(AlignedSizes(chunks, alignment))
  }

  ghost predicate Named(order: seq<Buffer>, at: map<nat, nat>, offsets: map<string, nat>, i: nat)
    requires i <= |order| && Numbered(at, i)
  {
    && offsets.Keys == Ids(order[..i])
    && (forall k :: 0 <= k < i ==> order[k].id in offsets && offsets[order[k].id] == at[k])
  }

  /** Every chunk ends within the padded sizes of the chunks placed up to it. */
  ghost predicate Summed(sizes: seq<nat>, at: map<nat, nat>, i: nat)
    requires i <= |sizes| && Numbered(at, i)
  {
    forall k :: 0 <= k < i ==> at[k] + sizes[k] <= Sum(sizes[..k + 1])
  }

  ghost predicate Fitted(order: seq<Buffer>, cb: Callbacks, alignment: nat, at: map<nat, nat>, i: nat)
    requires i <= |order| && Numbered(at, i)
  {
    forall k {:trigger BestFit(order, cb, alignment, at, k)} :: 0 <= k < i ==> BestFit(order, cb, alignment, at, k)
  }

  /** The first `i` chunks of the order have been placed. */
  ghost predicate Placing(order: seq<Buffer>, cb: Callbacks, alignment: nat, sizes: seq<nat>, at: map<nat, nat>,
                          r: Result, i: nat)
    requires i <= |order| == |sizes|
  {
    && Numbered(at, i)
    && Fitted(order, cb, alignment, at, i)
    && Named(order, at, r.offsets, i)
    && Topped(order, at, r.heapSize, i)
    && Summed(sizes, at, i)
  }

  lemma NextSummed(sizes: seq<nat>, at: map<nat, nat>, i: nat, pos: nat)
    requires i < |sizes| && Numbered(at, i) && Summed(sizes, at, i)
    requires FollowsEarlier(sizes, at, i, pos)
    ensures Numbered(at[i := pos], i + 1) && Summed(sizes, at[i := pos], i + 1)
  {
    hide Sum;
    SumOfPrefix(sizes, i);
    if pos != 0 {
      var j :| 0 <= j < i && pos == at[j] + sizes[j];
      SumsGrow(sizes, j + 1, i);
    }
    var at' := at[i := pos];
    forall k | 0 <= k < i + 1 ensures at'[k] + sizes[k] <= Sum(sizes[..k + 1]) {
      assert k < i ==> at'[k] == at[k];
    }
  }

  lemma NextTopped(order: seq<Buffer>, at: map<nat, nat>, top: nat, i: nat, pos: nat)
    requires i < |order| && Numbered(at, i) && Topped(order, at, top, i)
    ensures Numbered(at[i := pos], i + 1) && Topped(order, at[i := pos], Max(top, pos + order[i].size), i + 1)
  {
    var at' := at[i := pos];
    if top <= pos + order[i].size {
      assert EndsHeap(order, at', i, pos + order[i].size);
    } else {
      var k: nat :| EndsHeap(order, at, k, top);
      assert EndsHeap(order, at', k, top);
    }
  }

  lemma NextNamed(order: seq<Buffer>, at: map<nat, nat>, offsets: map<string, nat>, i: nat, pos: nat)
    requires i < |order| && UniqueIds(order) && Numbered(at, i) && Named(order, at, offsets, i)
    ensures Numbered(at[i := pos], i + 1) && Named(order, at[i := pos], offsets[order[i].id := pos], i + 1)
  {
    IdsGrow(order, i);
  }

  lemma NextFitted(order: seq<Buffer>, cb: Callbacks, alignment: nat, at: map<nat, nat>, i: nat, pos: nat)
    requires i < |order| && Numbered(at, i) && Fitted(order, cb, alignment, at, i)
    requires BestFit(order, cb, alignment, at[i := pos], i)
    ensures Numbered(at[i := pos], i + 1) && Fitted(order, cb, alignment, at[i := pos], i + 1)
  {
    forall k {:trigger BestFit(order, cb, alignment, at[i := pos], k)} | 0 <= k < i
      ensures BestFit(order, cb, alignment, at[i := pos], k)
    {
      assert BestFit(order, cb, alignment, at, k);
      BestFitFrame(order, cb, alignment, at, at[i := pos], k);
    }
  }

  lemma BestFitFrame(order: seq<Buffer>, cb: Callbacks, alignment: nat, at: map<nat, nat>, at': map<nat, nat>, k: nat)
    requires k < |order| && (forall j :: 0 <= j <= k ==> j in at && j in at' && at'[j] == at[j])
    requires BestFit(order, cb, alignment, at, k)
    ensures BestFit(order, cb, alignment, at', k)
  {
    forall q: nat ensures ApartFromEarlier(order, cb, at', k, q) <==> ApartFromEarlier(order, cb, at, k, q)
    {
    }
  }

  lemma IdsGrow(order: seq<Buffer>, i: nat)
    requires i < |order|
    ensures Ids(order[..i + 1]) == Ids(order[..i]) + {order[i].id}
  {
    var more := order[..i + 1];
    assert more[i] == order[i];
    forall x | x in Ids(order[..i]) ensures x in Ids(more)
    {
      var k :| 0 <= k < i && order[..i][k].id == x;
      assert more[k].id == x;
    }
  }

  lemma NothingPlaced(order: seq<Buffer>, cb: Callbacks, alignment: nat, sizes: seq<nat>)
    requires |sizes| == |order|
    ensures Placing(order, cb, alignment, sizes, map[], Result(map[], 0), 0)
  {
    assert order[..0] == [];
  }

  lemma PlacedNext(order: seq<Buffer>, cb: Callbacks, alignment: nat, sizes: seq<nat>, at: map<nat, nat>, r: Result,
                   i: nat, pos: nat)
    requires i < |order| == |sizes| && Numbered(at, i)
    requires FollowsEarlier(sizes, at, i, pos) && BestFit(order, cb, alignment, at[i := pos], i)
    requires UniqueIds(order) && Placing(order, cb, alignment, sizes, at, r, i)
    ensures Placing(order, cb, alignment, sizes, at[i := pos],
                    Result(r.offsets[order[i].id := pos], Max(r.heapSize, pos + order[i].size)), i + 1)
  {
    hide BestFit, Fitted, Named, Topped, Summed, FollowsEarlier, UniqueIds, Numbered, AlignUp, Aligned;
    NextSummed(sizes, at, i, pos);
    NextTopped(order, at, r.heapSize, i, pos);
    NextNamed(order, at, r.offsets, i, pos);
    NextFitted(order, cb, alignment, at, i, pos);
  }

  lemma TopFits(sizes: seq<nat>, at: map<nat, nat>, k: nat)
    requires Numbered(at, |sizes|) && Summed(sizes, at, |sizes|) && k < |sizes|
    ensures at[k] + sizes[k] <= Sum(sizes)
  {
    SumsGrow(sizes, k + 1, |sizes|);
    assert sizes[..|sizes|] == sizes;
  }

  lemma HeapFits(order: seq<Buffer>, alignment: nat, sizes: seq<nat>, at: map<nat, nat>, top: nat)
    requires Pads(order, alignment, sizes) && Numbered(at, |order|) && Topped(order, at, top, |order|)
    requires forall k :: 0 <= k < |order| ==> Aligned(at[k], alignment)
    requires Summed(sizes, at, |order|)
    ensures AlignUp(top, alignment) <= Sum(sizes)
  {
    hide AlignUp, Aligned, Summed;
    if |order| > 0 {
      var k: nat :| EndsHeap(order, at, k, top);
      AlignUpShifts(at[k], order[k].size, alignment);
      TopFits(sizes, at, k);
    } else {
      AlignUpZero(alignment);
    }
  }

  lemma PlacedAll(chunks: seq<Buffer>, cb: Callbacks, alignment: nat, at: map<nat, nat>, r: Result)
    requires var order := PlacementOrder(chunks);
             Placing(order, cb, alignment, AlignedSizes(order, alignment), at, r, |order|)
    ensures IsAllocation(chunks, cb, alignment, r.(heapSize := AlignUp(r.heapSize, alignment)))
  {
    hide AlignUp, BestFit, Summed;
    var order := PlacementOrder(chunks);
    assert order[..|order|] == order;
    assert Positions(order, r.offsets) == at;
    PlacedAreAligned(order, cb, alignment, at, |order|);
    HeapFits(order, alignment, AlignedSizes(order, alignment), at, r.heapSize);
    SumOfSort(chunks, alignment);
  }

  lemma PlacedAreAligned(order: seq<Buffer>, cb: Callbacks, alignment: nat, at: map<nat, nat>, i: nat)
    requires i <= |order| && Numbered(at, i) && Fitted(order, cb, alignment, at, i)
    ensures forall k :: 0 <= k < i ==> k in at && Aligned(at[k], alignment)
  {
    forall k | 0 <= k < i ensures k in at && Aligned(at[k], alignment)
    {
      assert BestFit(order, cb, alignment, at, k);
    }
  }

  method PlaceInOrder(order: seq<Buffer>, cb: Callbacks, alignment: nat, g: array2<bool>, ghost sizes: seq<nat>)
    returns (ghost at: map<nat, nat>, r: Result)
    requires Pads(order, alignment, sizes)
    requires g.Length0 == g.Length1 == |order| && GraphUpTo(g, order, cb, |order|, 0)
    requires UniqueIds(order) && forall i, j :: 0 <= i < j < |order| ==> order[j].size <= order[i].size
    ensures Placing(order, cb, alignment, sizes, at, r, |order|)
  {
    hide BestFit, Named, Topped, Summed;
    var placed: map<nat, nat> := map[];
    r := Result(map[], 0);
    NothingPlaced(order, cb, alignment, sizes);
    for i := 0 to |order|
      invariant Placing(order, cb, alignment, sizes, placed, r, i)
    {
      PlacedAreAligned(order, cb, alignment, placed, i);
      var pos, found := Place(order, cb, alignment, g, placed, i, sizes);
      assert found;
      PlacedNext(order, cb, alignment, sizes, placed, r, i, pos);
      placed := placed[i := pos];
      r := Result(r.offsets[order[i].id := pos], Max(r.heapSize, pos + order[i].size));
    }
    at := placed;
  }

  method GlobalDecreasingSizeBestFitAllocate(chunks: seq<Buffer>, alignment: nat, cb: Callbacks) returns (r: Result)
    requires UniqueIds(chunks) && RangesInOrder(chunks, cb)
    ensures IsAllocation(chunks, cb, alignment, r)
  {
    var order := PlacementOrder(chunks);
    OrderIsSorted(chunks);
    forall k | 0 <= k < |order| && cb.explicit.None? ensures Ascending(order[k].ranges)
    {
      assert order[k] in order;
    }
    var g := BuildInterference(order, cb);
    ghost var at;
    at, r := PlaceInOrder(order, cb, alignment, g, AlignedSizes(order, alignment));
    PlacedAll(chunks, cb, alignment, at, r);
    r := r.(heapSize := AlignUp(r.heapSize, alignment));
  }

  /** The order of placement is a rearrangement of the chunks by decreasing size. */
  lemma OrderIsSorted(chunks: seq<Buffer>)
    requires UniqueIds(chunks)
    ensures var order := PlacementOrder(chunks);
            && multiset(order) == multiset(chunks)
            && (forall i, j :: 0 <= i < j < |order| ==> order[j].size <= order[i].size)
            && UniqueIds(order)
            && (forall c :: c in chunks <==> c in order)
  {
    var order := PlacementOrder(chunks);
    PlacedBeforeIsComparison();
    SortSorts(chunks, PlacedBefore);
    SameElements(chunks, order);
    SortKeepsUnique(chunks);
  }

  /** Chunks of one size are placed in the order of their names. */
  lemma TiesGoByName(chunks: seq<Buffer>, i: nat, j: nat)
    requires UniqueIds(chunks) && i < j < |PlacementOrder(chunks)|
    requires PlacementOrder(chunks)[i].size == PlacementOrder(chunks)[j].size
    ensures exists k: nat :: DiffersAt(PlacementOrder(chunks)[i].id, PlacementOrder(chunks)[j].id, k)
  {
    var order := PlacementOrder(chunks);
    OrderIsSorted(chunks);
    PlacedBeforeIsComparison();
    SortSorts(chunks, PlacedBefore);
    assert !PlacedBefore(order[j], order[i]);
    StringOrder(order[i].id, order[j].id, "");
    StringLessIffDiffers(order[i].id, order[j].id);
  }

  lemma {:induction false} InsertKeepsUnique(x: Buffer, s: seq<Buffer>)
    requires UniqueIds(s) && forall k :: 0 <= k < |s| ==> s[k].id != x.id
    ensures UniqueIds(Insert(x, s, PlacedBefore))
  {
    if s != [] && !PlacedBefore(x, s[0]) {
      InsertKeepsUnique(x, s[1..]);
      var rest := Insert(x, s[1..], PlacedBefore);
      forall k | 0 <= k < |rest| ensures rest[k].id != s[0].id
      {
        assert rest[k] in multiset(rest);
        assert rest[k] == x || rest[k] in s[1..];
      }
    }
  }

  lemma {:induction false} SortKeepsUnique(s: seq<Buffer>)
    requires UniqueIds(s)
    ensures UniqueIds(Sort(s, PlacedBefore))
  {
    if s != [] {
      var rest := Sort(s[1..], PlacedBefore);
      SortKeepsUnique(s[1..]);
      SameElements(s[1..], rest);
      forall k | 0 <= k < |rest| ensures rest[k].id != s[0].id
      {
        assert rest[k] in s[1..];
      }
      InsertKeepsUnique(s[0], rest);
    }
  }

  // ----- what an allocation guarantees -----

  lemma OffsetOf(chunks: seq<Buffer>, r: Result, c: Buffer) returns (k: nat)
    requires UniqueIds(chunks) && c in chunks && r.offsets.Keys == Ids(PlacementOrder(chunks))
    ensures var order := PlacementOrder(chunks);
            k < |order| && order[k] == c && c.id in r.offsets && Positions(order, r.offsets)[k] == r.offsets[c.id]
  {
    OrderIsSorted(chunks);
    var order := PlacementOrder(chunks);
    assert c in order;
    k :| 0 <= k < |order| && order[k] == c;
    assert order[k].id in Ids(order);
  }

  /** Chunks that interfere, whichever is asked first, never share a byte. */
  lemma InterferingChunksAreApart(chunks: seq<Buffer>, cb: Callbacks, alignment: nat, r: Result, a: Buffer, b: Buffer)
    requires UniqueIds(chunks) && IsAllocation(chunks, cb, alignment, r)
    requires a in chunks && b in chunks && a != b && Interferes(cb, a, b) && Interferes(cb, b, a)
    ensures a.id in r.offsets && b.id in r.offsets
    ensures Apart(r.offsets[a.id], a.size, r.offsets[b.id], b.size)
  {
    hide Interferes;
    var order := PlacementOrder(chunks);
    var i := OffsetOf(chunks, r, a);
    var j := OffsetOf(chunks, r, b);
    var at := Positions(order, r.offsets);
    assert BestFit(order, cb, alignment, at, if i < j then j else i);
  }

  /** A chunk interferes with every chunk it is live together with unless happens-before clears the pair, and
    with every other chunk for which it may run concurrently. An explicit relation overrules both. */
  lemma InterferesIff(cb: Callbacks, a: Buffer, b: Buffer)
    requires cb.explicit.None? ==> Ascending(a.ranges) && Ascending(b.ranges)
    ensures cb.explicit.Some? ==> (Interferes(cb, a, b) <==> cb.explicit.value(a.id, b.id))
    ensures cb == Callbacks(None, None, None) ==> (Interferes(cb, a, b) <==> LiveTogether(a, b))
    ensures cb.explicit.None? && LiveTogether(a, b) ==>
              (Interferes(cb, a, b) <==> cb.hbOverride.Some? ==> !cb.hbOverride.value(a.id, b.id))
    ensures cb.explicit.None? && !LiveTogether(a, b) ==>
              (Interferes(cb, a, b) <==> cb.mustInterfere.Some? && cb.mustInterfere.value(a.id, b.id))
  {
    if cb.explicit.None? { OverlapIffLiveTogether(a, b); }
  }

  /** Without callbacks, chunks that are live at one statement never share a byte. */
  lemma LiveChunksAreApart(chunks: seq<Buffer>, alignment: nat, r: Result, a: Buffer, b: Buffer, x: nat)
    requires UniqueIds(chunks) && IsAllocation(chunks, Callbacks(None, None, None), alignment, r)
    requires RangesInOrder(chunks, Callbacks(None, None, None))
    requires a in chunks && b in chunks && a != b && Live(a, x) && Live(b, x)
    ensures a.id in r.offsets && b.id in r.offsets
    ensures Apart(r.offsets[a.id], a.size, r.offsets[b.id], b.size)
  {
    hide IsAllocation;
    assert LiveTogether(a, b) && LiveTogether(b, a);
    InterferesIff(Callbacks(None, None, None), a, b);
    InterferesIff(Callbacks(None, None, None), b, a);
    InterferingChunksAreApart(chunks, Callbacks(None, None, None), alignment, r, a, b);
  }

  /** No space is given to a chunk that interferes with no other: it starts the heap. */
  lemma LoneChunkStartsHeap(chunks: seq<Buffer>, cb: Callbacks, alignment: nat, r: Result, c: Buffer)
    requires UniqueIds(chunks) && IsAllocation(chunks, cb, alignment, r) && c in chunks
    requires forall d :: d in chunks && d != c ==> !Interferes(cb, d, c)
    ensures c.id in r.offsets && r.offsets[c.id] == 0
  {
    hide Interferes;
    var order := PlacementOrder(chunks);
    OrderIsSorted(chunks);
    var k := OffsetOf(chunks, r, c);
    var at := Positions(order, r.offsets);
    assert BestFit(order, cb, alignment, at, k);
    forall j | 0 <= j < k ensures !Interferes(cb, order[j], order[k])
    {
      assert order[j] in order && order[j].id != order[k].id;
    }
    assert Aligned(0, alignment) && ApartFromEarlier(order, cb, at, k, 0);
  }

  /** All chunks of the order interfere with each other. */
  ghost predicate AllInterfere(order: seq<Buffer>, cb: Callbacks)
  {
    forall i, j :: 0 <= i < j < |order| ==> Interferes(cb, order[i], order[j])
  }

  function Sizes(order: seq<Buffer>): (s: seq<nat>)
    ensures |s| == |order|
  {
    seq(|order|, k requires 0 <= k < |order| => order[k].size)
  }

  lemma {:induction false} FindSlot(sizes: seq<nat>, i: nat, pos: nat) returns (j: nat)
    requires i <= |sizes| && pos < Sum(sizes[..i])
    ensures j < i && Sum(sizes[..j]) <= pos < Sum(sizes[..j + 1])
  {
    SumOfPrefix(sizes, i - 1);
    if pos < Sum(sizes[..i - 1]) {
      j := FindSlot(sizes, i - 1, pos);
    } else {
      j := i - 1;
    }
  }

  /** Without alignment, chunks that all interfere are stacked without gaps, in order. */
  lemma {:induction false} StackedWithoutGaps(order: seq<Buffer>, cb: Callbacks, at: map<nat, nat>, k: nat)
    requires k < |order| && Numbered(at, |order|) && Fitted(order, cb, 0, at, |order|)
    requires AllInterfere(order, cb) && order[k].size > 0
    requires forall i, j :: 0 <= i < j < |order| ==> order[j].size <= order[i].size
    ensures at[k] == Sum(Sizes(order)[..k])
    decreases k
  {
    var sizes := Sizes(order);
    forall j | 0 <= j < k ensures at[j] == Sum(sizes[..j]) && at[j] + order[j].size == Sum(sizes[..j + 1])
    {
      StackedWithoutGaps(order, cb, at, j);
      SumOfPrefix(sizes, j);
    }
    assert BestFit(order, cb, 0, at, k);
    forall j | 0 <= j < k ensures Apart(at[k], order[k].size, at[j], order[j].size)
    {
      assert Interferes(cb, order[j], order[k]);
    }
    if at[k] < Sum(sizes[..k]) {
      var j := FindSlot(sizes, k, at[k]);
    }
    forall j | 0 <= j < k ensures at[j] + order[j].size <= Sum(sizes[..k])
    {
      SumsGrow(sizes, j + 1, k);
    }
    assert ApartFromEarlier(order, cb, at, k, Sum(sizes[..k]));
  }

  /** Then the heap is exactly the sum of the sizes. */
  lemma StackedHeap(chunks: seq<Buffer>, cb: Callbacks, r: Result)
    requires UniqueIds(chunks) && IsAllocation(chunks, cb, 0, r) && AllInterfere(PlacementOrder(chunks), cb)
    ensures r.heapSize == Sum(Sizes(chunks))
  {
    hide BestFit, Fitted, AllInterfere, AlignUp, AlignedSizes, Sizes, Sum, Topped;
    var order := PlacementOrder(chunks);
    var at := Positions(order, r.offsets);
    OrderIsSorted(chunks);
    SumOfSort(chunks, 0);
    UnalignedSizes(chunks);
    UnalignedSizes(order);
    var top: nat :| Topped(order, at, top, |order|) && r.heapSize == AlignUp(top, 0);
    StackReachesSum(order, cb, at, top);
  }

  lemma UnalignedSizes(chunks: seq<Buffer>)
    ensures AlignedSizes(chunks, 0) == Sizes(chunks)
    ensures forall x: nat :: AlignUp(x, 0) == x
  {
  }

  lemma StackReachesSum(order: seq<Buffer>, cb: Callbacks, at: map<nat, nat>, top: nat)
    requires Numbered(at, |order|) && Fitted(order, cb, 0, at, |order|)
    requires AllInterfere(order, cb) && Topped(order, at, top, |order|)
    requires forall i, j :: 0 <= i < j < |order| ==> order[j].size <= order[i].size
    ensures Sum(Sizes(order)) <= top
  {
    hide BestFit, Fitted, AllInterfere;
    var sizes := Sizes(order);
    var last := LastPositive(sizes);
    if last > 0 {
      StackedWithoutGaps(order, cb, at, last - 1);
      SumOfPrefix(sizes, last - 1);
    }
  }

  /** The sizes from `last` on are all zero, and the one before is not. */
  lemma {:induction false} LastPositive(sizes: seq<nat>) returns (last: nat)
    ensures last <= |sizes| && Sum(sizes) == Sum(sizes[..last])
    ensures last > 0 ==> sizes[last - 1] > 0
    ensures last == 0 ==> Sum(sizes) == 0
    decreases |sizes|
  {
    if sizes == [] {
      last := 0;
    } else if sizes[|sizes| - 1] > 0 {
      last := |sizes|;
      assert sizes[..last] == sizes;
    } else {
      last := LastPositive(sizes[..|sizes| - 1]);
      assert sizes[..|sizes| - 1][..last] == sizes[..last];
    }
  }

  // ----- completion slots -----

  /** Allocation under an explicit interference relation, without alignment. */
  method AllocateInterference(chunks: seq<Buffer>, interference: Relation) returns (r: Result)
    requires UniqueIds(chunks)
    ensures IsAllocation(chunks, Callbacks(None, None, Some(interference)), 0, r)
  {
    r := GlobalDecreasingSizeBestFitAllocate(chunks, 0, Callbacks(None, None, Some(interference)));
  }
}
