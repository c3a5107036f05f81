/** Whether a block cut out of a row-major array is contiguous. */
module Contiguity {
  import opened Basics

  type Shape = seq<nat>

  /** Extents as written; None is a nil extent, whose value is not known. */
  type Extents = seq<Option<nat>>

  datatype SpannedOperation = Reshape | Squeeze | Tile(block: Extents)

  function Volume(s: Shape): nat {
    if s == [] then 1 else s[0] * Volume(s[1..])
  }

  /** The offset of the last element of a block, in row-major order. */
  function LastOffset(original: Shape, block: Shape): int
    requires |original| == |block|
  {
    if original == [] then 0
    else (block[0] - 1) * Volume(original[1..]) + LastOffset(original[1..], block[1..])
  }

  /** `x` is the row-major offset of some element of the block. */
  ghost predicate InBlock(original: Shape, block: Shape, x: int)
    requires |original| == |block|
  {
    if original == [] then x == 0
    else exists i :: 0 <= i < block[0] && InBlock(original[1..], block[1..], x - i * Volume(original[1..]))
  }

  /** The offsets of the block fill an interval. */
  ghost predicate NoGap(original: Shape, block: Shape)
    requires |original| == |block|
  {
    forall x :: 0 <= x <= LastOffset(original, block) ==> InBlock(original, block, x)
  }

  /** Every dimension inside the outermost block dimension larger than one is taken whole. */
  predicate FullInside(original: Shape, block: Shape)
    requires |original| == |block|
  {
    if original == [] then true
    else if block[0] == 1 then FullInside(original[1..], block[1..])
    else block[1..] == original[1..]
  }

  ghost predicate IsBlockOf(original: Shape, block: Shape)
  {
    |original| == |block| && forall k :: 0 <= k < |block| ==> 1 <= block[k] <= original[k]
  }

  // ----- nil extents -----

  const NIL_STAND_IN: nat := 2

  /** Nil extents replaced by a stand-in. */
  function Modified(s: Extents): (r: Shape)
    ensures |r| == |s|
  {
    seq(|s|, i requires 0 <= i < |s| => if s[i].Some? then s[i].value else NIL_STAND_IN)
  }

  /** A shape that the extents may turn out to be. */
  predicate Realises(s: Extents, actual: Shape) {
    |s| == |actual| && forall k :: 0 <= k < |s| && s[k].Some? ==> actual[k] == s[k].value
  }

  /** Nil extents of the array are those of the block, and the block takes them whole. */
  predicate TakesNilsWhole(original: Extents, block: Extents, original': Shape, block': Shape)
    requires |original| == |block| == |original'| == |block'|
  {
    forall k :: 0 <= k < |original| ==>
      (original[k].None? <==> block[k].None?) && (original[k].None? ==> original'[k] == block'[k])
  }

  predicate NilsExceedOne(s: Extents, actual: Shape)
    requires |s| == |actual|
  {
    forall k :: 0 <= k < |s| && s[k].None? ==> actual[k] > 1
  }

  lemma {:induction false} WholeIsFullInside(s: Shape)
    ensures FullInside(s, s)
    decreases |s|
  {
    if s != [] { WholeIsFullInside(s[1..]); }
  }

  /** What the stand-ins say is fully taken is; and where no nil extent is 1, they say so of everything that is. */
  lemma {:induction false} StandInsAgree(original: Extents, block: Extents, original': Shape, block': Shape)
    requires Realises(original, original') && Realises(block, block') && IsBlockOf(original', block')
    requires |original| == |block| && TakesNilsWhole(original, block, original', block')
    ensures IsBlockOf(Modified(original), Modified(block))
    ensures FullInside(Modified(original), Modified(block)) ==> FullInside(original', block')
    ensures NilsExceedOne(original, original') && FullInside(original', block') ==>
              FullInside(Modified(original), Modified(block))
    decreases |original|
  {
    if original != [] {
      StandInsAgree(original[1..], block[1..], original'[1..], block'[1..]);
      assert Modified(original)[1..] == Modified(original[1..]) && Modified(block)[1..] == Modified(block[1..]);
      assert NilsExceedOne(original, original') ==> NilsExceedOne(original[1..], original'[1..]);
      SameTails(original[1..], block[1..], original'[1..], block'[1..]);
      WholeIsFullInside(original'[1..]);
    }
  }

  lemma SameTails(original: Extents, block: Extents, original': Shape, block': Shape)
    requires Realises(original, original') && Realises(block, block')
    requires |original| == |block| && TakesNilsWhole(original, block, original', block')
    ensures Modified(original) == Modified(block) <==> original' == block'
  {
    if Modified(original) == Modified(block) {
      forall k | 0 <= k < |original| ensures original'[k] == block'[k] {
        assert Modified(original)[k] == Modified(block)[k];
      }
    }
  }

  // ----- the test -----

  method ModifyNil(s: Extents) returns (r: Shape)
    ensures r == Modified(s)
  {
    r := [];
    for i := 0 to |s|
      invariant |r| == i && r == Modified(s)[..i]
    {
      r := r + [if s[i].Some? then s[i].value else NIL_STAND_IN];
    }
  }

  method ComputeStrides(s: Shape) returns (strides: seq<nat>)
    ensures |strides| == |s| && forall k :: 0 <= k < |s| ==> strides[k] == Volume(s[k + 1..])
  {
    strides := seq(|s|, _ => 1);
    var i := |s| - 2;
    while i >= 0
      invariant -1 <= i || |s| < 2
      invariant |strides| == |s| && i < |s|
      invariant forall k :: 0 <= k < |s| && i < k ==> strides[k] == Volume(s[k + 1..])
      decreases i
    {
      assert s[i + 1..][0] == s[i + 1] && s[i + 1..][1..] == s[i + 2..];
      ProductCommutes(strides[i + 1], s[i + 1]);
      strides := strides[i := strides[i + 1] * s[i + 1]];
      i := i - 1;
    }
  }

  lemma ProductCommutes(a: nat, b: nat)
    ensures a * b == b * a >= 0
  {
  }

  method InnerProduct(lastIdx: seq<int>, strides: seq<nat>, ghost original: Shape, ghost block: Shape)
    returns (last: int)
    requires |lastIdx| == |strides| == |original| == |block|
    requires forall k :: 0 <= k < |block| ==>
               lastIdx[k] == block[k] as int - 1 && strides[k] == Volume(original[k + 1..])
    ensures last == LastOffset(original, block)
  {
    last := 0;
    for k := 0 to |lastIdx|
      invariant last + LastOffset(original[k..], block[k..]) == LastOffset(original, block)
    {
      assert original[k..][1..] == original[k + 1..] && block[k..][1..] == block[k + 1..];
      last := last + lastIdx[k] * strides[k];
    }
  }

  method ElementCount(s: Shape) returns (n: nat)
    ensures n == Volume(s)
  {
    n := 1;
    for k := 0 to |s|
      invariant n * Volume(s[k..]) == Volume(s)
    {
      assert s[k..][0] == s[k] && s[k..][1..] == s[k + 1..];
      ProductAssociates(n, s[k], Volume(s[k + 1..]));
      n := n * s[k];
    }
  }

  lemma ProductAssociates(a: nat, b: nat, c: nat)
    ensures a * (b * c) == a * b * c
  {
  }

  /** What the test answers for extents. */
  predicate TestAnswers(original: Extents, block: Extents)
    requires |original| == |block|
  {
    LastOffset(Modified(original), Modified(block)) + 1 == Volume(Modified(block))
  }

  /** For a block of an array whose extents are known the answer is exact: true when the block's offsets
    leave no gap, which is when every dimension inside the outermost partial one is whole. With nil extents
    that the block takes whole, a true answer is right, and a false one too where none of them is 1. */
  method IsContiguous(k: SpannedOperation, original: Extents) returns (r: bool)
    requires k.Tile? ==> |k.block| == |original|
    ensures !k.Tile? ==> r
    ensures k.Tile? ==> r == TestAnswers(original, k.block)
    ensures k.Tile? ==> forall original', block' ::
              Realises(original, original') && Realises(k.block, block') && IsBlockOf(original', block')
              && TakesNilsWhole(original, k.block, original', block') ==>
                && (r ==> NoGap(original', block') && FullInside(original', block'))
                && (NilsExceedOne(original, original') ==>
                      (NoGap(original', block') ==> r) && (FullInside(original', block') ==> r))
  {
    if k.Reshape? || k.Squeeze? {
      return true;
    }
    var shape := ModifyNil(original);
    var block := ModifyNil(k.block);
    var strides := ComputeStrides(shape);
    var lastIdx: seq<int> := seq(|block|, i requires 0 <= i < |block| => block[i] as int - 1);
    var first := 0;
    var last := InnerProduct(lastIdx, strides, shape, block);
    var n := ElementCount(block);
    r := last - first + 1 == n;
    forall original', block'
      | Realises(original, original') && Realises(k.block, block') && IsBlockOf(original', block')
        && TakesNilsWhole(original, k.block, original', block')
      ensures r ==> NoGap(original', block') && FullInside(original', block')
      ensures NilsExceedOne(original, original') ==>
                (NoGap(original', block') ==> r) && (FullInside(original', block') ==> r)
    {
      StandInsAgree(original, k.block, original', block');
      TestIsFullInside(shape, block);
      NoGapIsFullInside(original', block');
    }
  }

  // ----- when the answer is right -----

  /** The shapes that an array and a block of it may turn out to have; a dimension nil in both is one extent. */
  ghost predicate Possible(original: Extents, block: Extents, original': Shape, block': Shape)
    requires |original| == |block|
  {
    && Realises(original, original') && Realises(block, block') && IsBlockOf(original', block')
    && forall k :: 0 <= k < |original| && original[k].None? && block[k].None? ==> original'[k] == block'[k]
  }

  ghost predicate AlwaysContiguous(original: Extents, block: Extents)
    requires |original| == |block|
  {
    forall original', block' :: Possible(original, block, original', block') ==> NoGap(original', block')
  }

  ghost predicate NeverContiguous(original: Extents, block: Extents)
    requires |original| == |block|
  {
    forall original', block' :: Possible(original, block, original', block') ==> !NoGap(original', block')
  }

  /** The known extents fit an array and a block of it. */
  predicate Fits(original: Extents, block: Extents) {
    |original| == |block| && forall k :: 0 <= k < |original| ==> ExtentsFit(original[k], block[k])
  }

  predicate ExtentsFit(o: Option<nat>, b: Option<nat>) {
    (o.Some? ==> o.value >= 1) && (b.Some? ==> b.value >= 1) && (o.Some? && b.Some? ==> b.value <= o.value)
  }

  /** Whatever nil is, the block takes the dimension whole. */
  predicate SurelyWhole(o: Option<nat>, b: Option<nat>) {
    o == b || o == Some(1)
  }

  /** Inside the outermost dimension that can exceed 1, every dimension is surely taken whole. */
  predicate SurelyFull(original: Extents, block: Extents)
    requires |original| == |block|
  {
    if original == [] then true
    else if block[0] == Some(1) || original[0] == Some(1) then SurelyFull(original[1..], block[1..])
    else forall k :: 1 <= k < |original| ==> SurelyWhole(original[k], block[k])
  }

  /** Two extents that differ only if one is nil. */
  predicate MayBeWhole(o: Option<nat>, b: Option<nat>) {
    o.Some? && b.Some? ==> o == b
  }

  /** Inside some dimension, with only possible ones outside it, every dimension may be taken whole. */
  predicate PossiblyFull(original: Extents, block: Extents)
    requires |original| == |block|
  {
    || original == []
    || ((block[0] == Some(1) || block[0].None?) && PossiblyFull(original[1..], block[1..]))
    || forall k :: 1 <= k < |original| ==> MayBeWhole(original[k], block[k])
  }

  /** Extents of one dimension that are unequal if they can be. */
  function Apart(o: Option<nat>, b: Option<nat>): (r: (nat, nat))
    requires ExtentsFit(o, b)
    ensures 1 <= r.1 <= r.0 && (!SurelyWhole(o, b) ==> r.0 != r.1)
  {
    match (o, b)
    case (Some(m), Some(v)) => (m, v)
    case (None, Some(v)) => (v + 1, v)
    case (Some(m), None) => (m, 1)
    case (None, None) => (1, 1)
  }

  /** Extents of one dimension of which the block's exceeds 1 if it can. */
  function Wide(o: Option<nat>, b: Option<nat>): (r: (nat, nat))
    requires ExtentsFit(o, b)
    ensures 1 <= r.1 <= r.0 && (o != Some(1) && b != Some(1) ==> r.1 > 1)
  {
    match (o, b)
    case (Some(m), Some(v)) => (m, v)
    case (None, Some(v)) => (v, v)
    case (Some(m), None) => (m, m)
    case (None, None) => (2, 2)
  }

  /** Extents of one dimension that are equal if they can be. */
  function Close(o: Option<nat>, b: Option<nat>): (r: (nat, nat))
    requires ExtentsFit(o, b)
    ensures 1 <= r.1 <= r.0 && (MayBeWhole(o, b) ==> r.0 == r.1)
  {
    match (o, b)
    case (Some(m), Some(v)) => (m, v)
    case (None, Some(v)) => (v, v)
    case (Some(m), None) => (m, m)
    case (None, None) => (1, 1)
  }

  /** Extents of one dimension of which the block's is 1. */
  function Narrow(o: Option<nat>): (r: (nat, nat))
    requires o.Some? ==> o.value >= 1
    ensures r.1 == 1 <= r.0
  {
    (if o.Some? then o.value else 1, 1)
  }

  /** The dimensions one by one, unequal where they can be. */
  lemma ApartShapes(original: Extents, block: Extents) returns (original': Shape, block': Shape)
    requires Fits(original, block)
    ensures Possible(original, block, original', block')
    ensures forall k :: 0 <= k < |original| && !SurelyWhole(original[k], block[k]) ==> original'[k] != block'[k]
  {
    original' := seq(|original|, k requires 0 <= k < |original| => Apart(original[k], block[k]).0);
    block' := seq(|original|, k requires 0 <= k < |original| => Apart(original[k], block[k]).1);
  }

  /** The dimensions one by one, equal where they can be. */
  lemma CloseShapes(original: Extents, block: Extents) returns (original': Shape, block': Shape)
    requires Fits(original, block)
    ensures Possible(original, block, original', block')
    ensures (forall k :: 0 <= k < |original| ==> MayBeWhole(original[k], block[k])) ==> original' == block'
  {
    original' := seq(|original|, k requires 0 <= k < |original| => Close(original[k], block[k]).0);
    block' := seq(|original|, k requires 0 <= k < |original| => Close(original[k], block[k]).1);
  }

  lemma {:induction false} PartialShapes(original: Extents, block: Extents) returns (original': Shape, block': Shape)
    requires Fits(original, block) && !SurelyFull(original, block)
    ensures Possible(original, block, original', block') && !FullInside(original', block')
    decreases |original|
  {
    var head;
    if block[0] == Some(1) || original[0] == Some(1) {
      original', block' := PartialShapes(original[1..], block[1..]);
      head := Narrow(original[0]);
    } else {
      original', block' := ApartShapes(original[1..], block[1..]);
      head := Wide(original[0], block[0]);
      var k :| 1 <= k < |original| && !SurelyWhole(original[k], block[k]);
      assert original'[k - 1] != block'[k - 1];
    }
    Prepended(original, block, head, original', block');
    original', block' := [head.0] + original', [head.1] + block';
  }

  lemma {:induction false} FullShapes(original: Extents, block: Extents) returns (original': Shape, block': Shape)
    requires Fits(original, block) && PossiblyFull(original, block)
    ensures Possible(original, block, original', block') && FullInside(original', block')
    decreases |original|
  {
    if original == [] {
      original', block' := [], [];
    } else {
      var head;
      if (block[0] == Some(1) || block[0].None?) && PossiblyFull(original[1..], block[1..]) {
        original', block' := FullShapes(original[1..], block[1..]);
        head := Narrow(original[0]);
      } else {
        original', block' := CloseShapes(original[1..], block[1..]);
        head := Close(original[0], block[0]);
        WholeIsFullInside(original');
      }
      Prepended(original, block, head, original', block');
      original', block' := [head.0] + original', [head.1] + block';
    }
  }

  lemma Prepended(original: Extents, block: Extents, head: (nat, nat), original': Shape, block': Shape)
    requires |original| == |block| && original != [] && Possible(original[1..], block[1..], original', block')
    requires (original[0].Some? ==> head.0 == original[0].value) && (block[0].Some? ==> head.1 == block[0].value)
    requires 1 <= head.1 <= head.0 && (original[0].None? && block[0].None? ==> head.0 == head.1)
    ensures Possible(original, block, [head.0] + original', [head.1] + block')
    ensures FullInside([head.0] + original', [head.1] + block')
            <==> if head.1 == 1 then FullInside(original', block') else block' == original'
  {
    assert ([head.0] + original')[1..] == original' && ([head.1] + block')[1..] == block';
  }

  lemma {:induction false} SurelyFullIsFull(original: Extents, block: Extents, original': Shape, block': Shape)
    requires |original| == |block| && SurelyFull(original, block) && Possible(original, block, original', block')
    ensures FullInside(original', block')
    decreases |original|
  {
    if original != [] {
      if block[0] == Some(1) || original[0] == Some(1) {
        SurelyFullIsFull(original[1..], block[1..], original'[1..], block'[1..]);
      } else {
        forall k | 1 <= k < |original| ensures original'[k] == block'[k] {
          assert SurelyWhole(original[k], block[k]);
        }
        assert original'[1..] == block'[1..];
        WholeIsFullInside(original'[1..]);
      }
    }
  }

  lemma {:induction false} FullIsPossible(original: Extents, block: Extents, original': Shape, block': Shape)
    requires |original| == |block| && Possible(original, block, original', block') && FullInside(original', block')
    ensures PossiblyFull(original, block)
    decreases |original|
  {
    if original != [] {
      if block'[0] == 1 {
        FullIsPossible(original[1..], block[1..], original'[1..], block'[1..]);
      } else {
        forall k | 1 <= k < |original| ensures MayBeWhole(original[k], block[k]) {
          assert original'[k] == original'[1..][k - 1] && block'[k] == block'[1..][k - 1];
        }
      }
    }
  }

  /** A block is contiguous whatever its nil extents turn out to be exactly if every dimension inside the
    outermost one that can exceed 1 is surely whole, and for no value of them exactly if it is not even
    possibly so. */
  lemma ContiguityIsDecided(original: Extents, block: Extents)
    requires Fits(original, block)
    ensures AlwaysContiguous(original, block) <==> SurelyFull(original, block)
    ensures NeverContiguous(original, block) <==> !PossiblyFull(original, block)
  {
    hide NoGap, SurelyFull, PossiblyFull, FullInside;
    forall original', block' | Possible(original, block, original', block')
      ensures NoGap(original', block') <==> FullInside(original', block')
      ensures SurelyFull(original, block) ==> NoGap(original', block')
      ensures NoGap(original', block') ==> PossiblyFull(original, block)
    {
      NoGapIsFullInside(original', block');
      if SurelyFull(original, block) { SurelyFullIsFull(original, block, original', block'); }
      if FullInside(original', block') { FullIsPossible(original, block, original', block'); }
    }
    if !SurelyFull(original, block) {
      var original', block' := PartialShapes(original, block);
    }
    if PossiblyFull(original, block) {
      var original', block' := FullShapes(original, block);
    }
  }

  /** Inside the outermost dimension whose block extent is not written as 1, nil stands against nil. */
  predicate NilsAgreeInside(original: Extents, block: Extents)
    requires |original| == |block|
  {
    if original == [] then true
    else if block[0] == Some(1) then NilsAgreeInside(original[1..], block[1..])
    else forall k :: 1 <= k < |original| ==> (original[k].None? <==> block[k].None?)
  }

  /** Where the stand-ins make a block of an array, a true answer is right, whatever the nil extents turn out to
    be, exactly if nil stands against nil in the dimensions that have to be whole. */
  lemma TrueAnswerIsRightIff(original: Extents, block: Extents)
    requires Fits(original, block) && IsBlockOf(Modified(original), Modified(block)) && TestAnswers(original, block)
    ensures AlwaysContiguous(original, block) <==> NilsAgreeInside(original, block)
  {
    hide AlwaysContiguous, NeverContiguous, Modified, TestAnswers;
    ContiguityIsDecided(original, block);
    assert TestAnswers(original, block) ==> FullInside(Modified(original), Modified(block)) by {
      AnswerIsFullInside(original, block);
    }
    NilsAgreeIffSurelyFull(original, block);
  }

  lemma AnswerIsFullInside(original: Extents, block: Extents)
    requires |original| == |block| && IsBlockOf(Modified(original), Modified(block))
    ensures TestAnswers(original, block) <==> FullInside(Modified(original), Modified(block))
  {
    TestIsFullInside(Modified(original), Modified(block));
  }

  lemma {:induction false} NilsAgreeIffSurelyFull(original: Extents, block: Extents)
    requires Fits(original, block) && IsBlockOf(Modified(original), Modified(block))
    requires FullInside(Modified(original), Modified(block))
    ensures NilsAgreeInside(original, block) <==> SurelyFull(original, block)
    decreases |original|
  {
    if original != [] {
      var o, b := Modified(original), Modified(block);
      assert o[1..] == Modified(original[1..]) && b[1..] == Modified(block[1..]);
      assert b[0] <= o[0];
      if block[0] == Some(1) {
        NilsAgreeIffSurelyFull(original[1..], block[1..]);
      } else {
        forall k | 1 <= k < |original|
          ensures SurelyWhole(original[k], block[k]) <==> (original[k].None? <==> block[k].None?)
        {
          assert o[1..][k - 1] == b[1..][k - 1] && o[k] == b[k];
        }
      }
    }
  }

  /** A true answer is right, whatever the nil extents turn out to be, exactly for surely full blocks, and a false
    one exactly for blocks that are not possibly full. */
  lemma AnswerIsRightIff(original: Extents, block: Extents)
    requires Fits(original, block)
    ensures TestAnswers(original, block) ==> (AlwaysContiguous(original, block) <==> SurelyFull(original, block))
    ensures !TestAnswers(original, block) ==> (NeverContiguous(original, block) <==> !PossiblyFull(original, block))
  {
    hide AlwaysContiguous, NeverContiguous, TestAnswers;
    ContiguityIsDecided(original, block);
  }

  /** A block of 2 in a nil extent is reported contiguous, but has gaps whenever the extent exceeds 2. */
  lemma NilPassesForWhole(n: nat)
    requires n > 2
    ensures var original, block: Extents := [Some(4), None], [Some(2), Some(2)];
            && TestAnswers(original, block) && !AlwaysContiguous(original, block)
            && Possible(original, block, [4, n], [2, 2]) && !NoGap([4, n], [2, 2])
  {
    var original, block: Extents := [Some(4), None], [Some(2), Some(2)];
    assert Modified(original) == [4, 2] && Modified(block) == [2, 2];
    PairTest([4, 2], [2, 2]);
    PairTest([4, n], [2, 2]);
  }

  /** A nil extent of a block passes for the whole of an extent of 2, but may turn out to be 1. */
  lemma NilBlockPassesForWhole()
    ensures var original, block: Extents := [Some(4), Some(2)], [Some(2), None];
            && TestAnswers(original, block) && !AlwaysContiguous(original, block)
            && Possible(original, block, [4, 2], [2, 1]) && !NoGap([4, 2], [2, 1])
  {
    var original, block: Extents := [Some(4), Some(2)], [Some(2), None];
    assert Modified(original) == [4, 2] && Modified(block) == [2, 2];
    PairTest([4, 2], [2, 2]);
    PairTest([4, 2], [2, 1]);
  }

  /** A block is reported not contiguous for an outer nil extent that may turn out to be 1. */
  lemma NilHidesOne()
    ensures var original, block: Extents := [None, Some(4)], [None, Some(2)];
            && !TestAnswers(original, block) && !NeverContiguous(original, block)
            && Possible(original, block, [1, 4], [1, 2]) && NoGap([1, 4], [1, 2])
  {
    var original, block: Extents := [None, Some(4)], [None, Some(2)];
    assert Modified(original) == [2, 4] && Modified(block) == [2, 2];
    PairTest([2, 4], [2, 2]);
    PairTest([1, 4], [1, 2]);
  }

  lemma PairTest(o: Shape, b: Shape)
    requires |o| == 2 && IsBlockOf(o, b)
    ensures LastOffset(o, b) + 1 == Volume(b) <==> b[0] == 1 || b[1] == o[1]
    ensures NoGap(o, b) <==> b[0] == 1 || b[1] == o[1]
  {
    TestIsFullInside(o, b);
    NoGapIsFullInside(o, b);
    assert o[1..] == [o[1]] && b[1..] == [b[1]];
    assert b[1..][1..] == o[1..][1..] == [] && FullInside(o[1..], b[1..]);
  }

  // ----- why the test is exact -----

  lemma {:induction false} VolumeIsPositive(original: Shape, block: Shape)
    requires IsBlockOf(original, block)
    ensures 1 <= Volume(block) <= Volume(original)
  {
    if block != [] {
      VolumeIsPositive(original[1..], block[1..]);
      ProductsGrow(block[0], original[0], Volume(block[1..]), Volume(original[1..]));
      ProductsGrow(1, block[0], 1, Volume(block[1..]));
    }
  }

  lemma ProductsGrow(a: nat, b: nat, c: nat, d: nat)
    requires a <= b && c <= d
    ensures a * c <= b * d
  {
    assert a * c + (b - a) * c == b * c;
    assert b * c + b * (d - c) == b * d;
  }

  /** A block has at most as many elements as its offsets span, and spans no more than the array. */
  lemma {:induction false} SpanBounds(original: Shape, block: Shape)
    requires IsBlockOf(original, block)
    ensures Volume(block) <= LastOffset(original, block) + 1 <= Volume(original)
  {
    if block != [] {
      var v, vb, l := Volume(original[1..]), Volume(block[1..]), LastOffset(original[1..], block[1..]);
      SpanBounds(original[1..], block[1..]);
      ProductsGrow(block[0] - 1, block[0] - 1, vb, v);
      ProductsGrow(block[0], original[0], v, v);
      assert (block[0] - 1) * vb + vb == block[0] * vb;
      assert (block[0] - 1) * v + v == block[0] * v;
    }
  }

  /** The arithmetic of one more dimension: `b` layers out of `o`, inner volumes `vb` and `v`,
    and an inner span of `span`. */
  lemma LayersAreWhole(b: nat, o: nat, v: nat, vb: nat, span: nat)
    requires 1 <= b <= o && 1 <= vb <= span <= v && (vb == v <==> span == v)
    ensures b * vb == o * v <==> b == o && vb == v
    ensures (b - 1) * v + span == o * v <==> b == o && span == v
  {
    ProductsGrow(b, b, vb, v);
    if b < o {
      ProductsGrow(b + 1, o, v, v);
      assert (b + 1) * v == b * v + v;
    } else if vb < v {
      ProductsGrow(b, b, 1, v - vb);
      assert b * (v - vb) == b * v - b * vb;
    }
    assert (b - 1) * v == b * v - v;
  }

  /** With several layers, span and volume agree only when the layers are whole. */
  lemma LayersTest(b: nat, v: nat, vb: nat, span: nat)
    requires 2 <= b && 1 <= vb <= span <= v && (vb == v <==> span == v)
    ensures (b - 1) * v + span == b * vb <==> vb == v
  {
    assert (b - 1) * (v - vb) == (b - 1) * v - (b - 1) * vb;
    assert (b - 1) * vb == b * vb - vb;
    if vb < v { ProductsGrow(1, b - 1, 1, v - vb); }
  }

  /** Only the whole array has the volume of the array, and only it spans the array. */
  lemma {:induction false} WholeIffSameVolume(original: Shape, block: Shape)
    requires IsBlockOf(original, block)
    ensures block == original <==> Volume(block) == Volume(original)
    ensures block == original <==> LastOffset(original, block) + 1 == Volume(original)
  {
    if block != [] {
      var v, vb, span := Volume(original[1..]), Volume(block[1..]), LastOffset(original[1..], block[1..]) + 1;
      WholeIffSameVolume(original[1..], block[1..]);
      VolumeIsPositive(original[1..], block[1..]);
      SpanBounds(original[1..], block[1..]);
      LayersAreWhole(block[0], original[0], v, vb, span);
      assert block == [block[0]] + block[1..] && original == [original[0]] + original[1..];
    }
  }

  lemma {:induction false} TestIsFullInside(original: Shape, block: Shape)
    requires IsBlockOf(original, block)
    ensures LastOffset(original, block) + 1 == Volume(block) <==> FullInside(original, block)
  {
    if block != [] {
      var v, vb, span := Volume(original[1..]), Volume(block[1..]), LastOffset(original[1..], block[1..]) + 1;
      if block[0] == 1 {
        TestIsFullInside(original[1..], block[1..]);
      } else {
        SpanBounds(original[1..], block[1..]);
        VolumeIsPositive(original[1..], block[1..]);
        WholeIffSameVolume(original[1..], block[1..]);
        LayersTest(block[0], v, vb, span);
      }
    }
  }

  lemma {:induction false} OffsetsAreBounded(original: Shape, block: Shape, x: int)
    requires IsBlockOf(original, block) && InBlock(original, block, x)
    ensures 0 <= x <= LastOffset(original, block)
  {
    hide Volume;
    if block != [] {
      var v := Volume(original[1..]);
      var i :| 0 <= i < block[0] && InBlock(original[1..], block[1..], x - i * v);
      OffsetsAreBounded(original[1..], block[1..], x - i * v);
      ProductsGrow(i, block[0] - 1, v, v);
    }
  }

  lemma {:induction false} WholeHasNoGap(original: Shape)
    requires IsBlockOf(original, original)
    ensures NoGap(original, original) && LastOffset(original, original) + 1 == Volume(original)
  {
    WholeIffSameVolume(original, original);
    if original != [] {
      WholeHasNoGap(original[1..]);
      StackedHasNoGap(original, original);
    }
  }

  /** Whole inner dimensions stacked along the outermost one leave no gap. */
  lemma StackedHasNoGap(original: Shape, block: Shape)
    requires IsBlockOf(original, block) && block != [] && block[1..] == original[1..]
    requires NoGap(original[1..], original[1..])
    requires LastOffset(original[1..], original[1..]) + 1 == Volume(original[1..])
    ensures NoGap(original, block)
  {
    hide Volume;
    var v := Volume(original[1..]);
    VolumeIsPositive(original[1..], original[1..]);
    forall x | 0 <= x <= LastOffset(original, block) ensures InBlock(original, block, x)
    {
      var i := Layer(x, v, block[0]);
      assert InBlock(original[1..], block[1..], x - i * v);
    }
  }

  /** Which of `b` layers of size `v` offset `x` lies in. */
  lemma Layer(x: nat, v: nat, b: nat) returns (i: nat)
    requires 1 <= b && 1 <= v && x < (b - 1) * v + v
    ensures i < b && i * v <= x < i * v + v
  {
    i := x / v;
    assert x == i * v + x % v && (b - 1) * v + v == b * v;
    if b <= i { ProductsGrow(b, i, v, v); }
  }

  lemma {:induction false} NoGapIsFullInside(original: Shape, block: Shape)
    requires IsBlockOf(original, block)
    ensures NoGap(original, block) <==> FullInside(original, block)
  {
    if block != [] {
      var v, l := Volume(original[1..]), LastOffset(original[1..], block[1..]);
      if block[0] == 1 {
        NoGapIsFullInside(original[1..], block[1..]);
        forall x ensures InBlock(original, block, x) <==> InBlock(original[1..], block[1..], x)
        {
          SingleLayer(original, block, x);
        }
      } else if block[1..] == original[1..] {
        WholeHasNoGap(original[1..]);
        StackedHasNoGap(original, block);
      } else {
        GapAfterFirstLayer(original, block);
      }
    }
  }

  lemma SingleLayer(original: Shape, block: Shape, x: int)
    requires |original| == |block| && block != [] && block[0] == 1
    ensures InBlock(original, block, x) <==> InBlock(original[1..], block[1..], x)
  {
    assert x - 0 * Volume(original[1..]) == x;
    if InBlock(original, block, x) {
      var i :| 0 <= i < block[0] && InBlock(original[1..], block[1..], x - i * Volume(original[1..]));
    }
  }

  /** A partial inner block repeated along an outer dimension leaves a gap after its first layer. */
  lemma GapAfterFirstLayer(original: Shape, block: Shape)
    requires IsBlockOf(original, block) && block != [] && block[0] > 1 && block[1..] != original[1..]
    ensures !NoGap(original, block)
  {
    hide Volume, InBlock;
    var v, l := Volume(original[1..]), LastOffset(original[1..], block[1..]);
    SpanBounds(original[1..], block[1..]);
    WholeIffSameVolume(original[1..], block[1..]);
    VolumeIsPositive(original[1..], block[1..]);
    ProductsGrow(1, block[0] - 1, v, v);
    NothingBetweenLayers(original, block, l + 1);
  }

  lemma NothingBetweenLayers(original: Shape, block: Shape, x: nat)
    requires IsBlockOf(original, block) && block != []
    requires LastOffset(original[1..], block[1..]) < x < Volume(original[1..])
    ensures !InBlock(original, block, x)
  {
    hide Volume, LastOffset;
    var v := Volume(original[1..]);
    if i :| 0 <= i < block[0] && InBlock(original[1..], block[1..], x - i * v) {
      OffsetsAreBounded(original[1..], block[1..], x - i * v);
      if i > 0 { ProductsGrow(1, i, v, v); }
    }
  }
}
