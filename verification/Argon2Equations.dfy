/** The memory Argon2 leaves, described without the order of the computation: every block satisfies
    the equations of sections 3.2 and 3.4 of RFC 9106, and they have one solution. */
module Argon2Equations {
  import opened Words
  import opened Argon2

  // ---- what a block may refer to, listed ----

  function Blocks(lo: nat, hi: nat): (s: seq<nat>)
    requires lo <= hi
    ensures |s| == hi - lo && forall k | 0 <= k < |s| :: s[k] == lo + k
  {
    seq(hi - lo, k requires 0 <= k < hi - lo => lo + k)
  }

  /** The blocks a reference is chosen from, oldest first: the last three segments finished in the
      lane, and in the block's own lane the blocks before it in this segment.  The block before it is
      left out; and in other lanes, when it is the first of its segment, the last block. */
  function Candidates(sh: Shape, pos: Position, sameLane: bool): seq<nat>
    requires ValidPosition(sh, pos)
  {
    var start := SliceStart(sh, pos.slice);
    var finished :=
      (if pos.pass == 0 then [] else Blocks(start + sh.segment, LaneLength(sh)))
      + Blocks(0, start)
      + (if sameLane then Blocks(start, start + pos.index) else []);
    if finished != [] && (sameLane || pos.index == 0) then finished[..|finished| - 1] else finished
  }

  /** With x the high half of the square of j: the block |w| * x >> 32 places before the last of `w`. */
  ghost predicate Picks(w: seq<nat>, j: u32, z: nat) {
    exists x: int, t: int :: IsHigh(x, j * j) && IsHigh(t, |w| * x) && 0 <= t < |w| && z == w[|w| - 1 - t]
  }

  lemma HighUnique(q: int, q': int, n: int)
    requires IsHigh(q, n) && IsHigh(q', n)
    ensures q == q'
  {}

  lemma PicksUnique(w: seq<nat>, j: u32, z: nat, z': nat)
    requires Picks(w, j, z) && Picks(w, j, z')
    ensures z == z'
  {
    var x: int, t: int :| IsHigh(x, j * j) && IsHigh(t, |w| * x) && 0 <= t < |w| && z == w[|w| - 1 - t];
    var x': int, t': int :| IsHigh(x', j * j) && IsHigh(t', |w| * x') && 0 <= t' < |w| && z' == w[|w| - 1 - t'];
    HighUnique(x, x', j * j);
    HighUnique(t, t', |w| * x);
  }

  /** As many candidates as the code computes, and where they lie. */
  lemma CandidatesAre(sh: Shape, pos: Position, sameLane: bool)
    requires Fits(sh) && ValidPosition(sh, pos) && (pos.pass == 0 && pos.slice == 0 ==> sameLane)
    ensures
      var w := Candidates(sh, pos, sameLane);
      && |w| == AreaSize(sh, pos, sameLane) > 0
      && forall k | 0 <= k < |w| ::
        w[k] == if Start(sh, pos) + k < LaneLength(sh) then Start(sh, pos) + k else Start(sh, pos) + k - LaneLength(sh)
  {
    hide AreaSize;
    AreaIs(sh, pos, sameLane);
  }

  /** `index_alpha` picks from that list. */
  lemma IndexAlphaPicks(sh: Shape, pos: Position, rand: u32, sameLane: bool)
    requires Fits(sh) && ValidPosition(sh, pos) && (pos.pass == 0 && pos.slice == 0 ==> sameLane)
    ensures Picks(Candidates(sh, pos, sameLane), rand, IndexAlpha(sh, pos, rand, sameLane))
  {
    hide Relative, AreaSize, IndexAlpha, Candidates, IsHigh;
    CandidatesAre(sh, pos, sameLane);
    AreaIs(sh, pos, sameLane);
    var w := Candidates(sh, pos, sameLane);
    RelativeInArea(|w|, rand);
    IndexIs(sh, pos, rand, sameLane);
    var x: int :| IsHigh(x, rand * rand) && IsHigh(|w| - 1 - Relative(|w|, rand), |w| * x);
    var t: int := |w| - 1 - Relative(|w|, rand);
    assert IndexAlpha(sh, pos, rand, sameLane) == w[|w| - 1 - t];
  }

  // ---- address words ----

  /** The words of an address input block, one by one. */
  lemma InputWords(g: Stage, lane: nat, counter: nat)
    requires Fits(g.sh) && g.pass < TWO32 && g.passes < TWO32 && lane < g.sh.lanes && g.slice < 4 && counter < TWO32
    ensures
      var v := InputBlock(g, lane, counter).v;
      && v[0] == g.pass && v[1] == lane && v[2] == g.slice && v[3] == g.sh.lanes * (4 * g.sh.segment)
      && v[4] == g.passes && v[5] == (if g.kind == Argon2i then 1 else 2) && v[6] == counter
      && forall i | 7 <= i < 128 :: v[i] == 0
  {
    assert g.sh.lanes * (4 * g.sh.segment) < TWO64 by {
      ProductBelow(g.sh.lanes, MAX_LANES + 1, 4 * g.sh.segment, TWO32);
    }
  }

  /** Address word `i`: from the input block with these words, filled twice over zeros. */
  lemma AddressIs(g: Stage, lane: nat, i: nat, input: Block, zero: Block)
    requires Fits(g.sh) && g.pass < TWO32 && g.passes < TWO32 && lane < g.sh.lanes && g.slice < 4 && i < g.sh.segment
    requires
      var v := input.v;
      && v[0] == g.pass && v[1] == lane && v[2] == g.slice && v[3] == g.sh.lanes * (4 * g.sh.segment)
      && v[4] == g.passes && v[5] == (if g.kind == Argon2i then 1 else 2) && v[6] == i / 128 + 1
      && forall j | 7 <= j < 128 :: v[j] == 0
    requires forall j | 0 <= j < 128 :: zero.v[j] == 0
    ensures Address(g, lane, i) == g.x.fillXor(zero, g.x.fillXor(zero, input, zero), zero).v[i % 128]
  {
    InputWords(g, lane, i / 128 + 1);
    assert input.v == InputBlock(g, lane, i / 128 + 1).v;
    assert zero.v == ZeroBlock().v;
  }

  lemma ProductBelow(a: nat, b: nat, c: nat, d: nat)
    requires a < b && c < d
    ensures a * c < b * d
  {
    assert b * d - a * c == b * (d - c) + (b - a) * c;
    assert b * (d - c) > 0 && (b - a) * c >= 0;
  }

  // ---- the equations ----

  /** The block before, in a pass that goes from `before` to `after`. */
  function Previous(sh: Shape, before: Memory, after: Memory, lane: nat, o: nat): Block
    requires Fits(sh) && HasShape(sh, before) && HasShape(sh, after) && lane < sh.lanes && o < LaneLength(sh)
  {
    if o == 0 then before[lane][LaneLength(sh) - 1] else after[lane][o - 1]
  }

  /** The word that chooses the reference: J_1 + 2^32 J_2. */
  function Word(job: Job, lane: nat, pos: Position, prev: Block): u64 {
    if job.kind == Argon2i || (pos.pass == 0 && pos.slice < 2)
    then Address(Stage(job.sh, job.kind, job.x, job.passes, pos.pass, pos.slice), lane, pos.index)
    else prev.v[0]
  }

  function Lane(job: Job, lane: nat, pos: Position, rand: u64): (l: nat)
    requires lane < job.sh.lanes
    ensures l < job.sh.lanes
  {
    if pos.pass == 0 && pos.slice == 0 then lane else rand / TWO32 % job.sh.lanes
  }

  /** Block `pos` of `lane` after a pass, with block `z` of its reference lane. */
  ghost predicate FollowsFrom(job: Job, before: Memory, after: Memory, lane: nat, pos: Position, z: nat)
    requires Fits(job.sh) && HasShape(job.sh, before) && HasShape(job.sh, after)
    requires lane < job.sh.lanes && ValidPosition(job.sh, pos)
  {
    var o := SliceStart(job.sh, pos.slice) + pos.index;
    var prev := Previous(job.sh, before, after, lane, o);
    var rand := Word(job, lane, pos, prev);
    var l := Lane(job, lane, pos, rand);
    && z < LaneLength(job.sh) && Picks(Candidates(job.sh, pos, l == lane), rand % TWO32, z)
    && var ref := if z < o then after[l][z] else before[l][z];
    after[lane][o] == if pos.pass == 0 then job.x.fill(prev, ref) else job.x.fillXor(prev, ref, before[lane][o])
  }

  ghost predicate Follows(job: Job, before: Memory, after: Memory, lane: nat, pos: Position)
    requires Fits(job.sh) && HasShape(job.sh, before) && HasShape(job.sh, after)
    requires lane < job.sh.lanes && ValidPosition(job.sh, pos)
  {
    exists z: nat :: FollowsFrom(job, before, after, lane, pos, z)
  }

  // ---- one lane, one slice ----

  /** While a lane fills its segment, the blocks ahead are still as they were and those behind are
      final. */
  lemma {:induction false} AloneAt(g: Stage, mem: Memory, lane: nat, done: nat, n: nat, o: nat)
    requires Ready(g, mem) && lane < g.sh.lanes && done <= n <= Quota(g) && o < LaneLength(g.sh)
    ensures
      var here := Offset(g.sh, Place(g, done));
      && (o < here || !InSlice(g.sh, g.slice, o) ==>
        Alone(g, mem, lane, n)[lane][o] == Alone(g, mem, lane, done)[lane][o])
      && (o >= here || !InSlice(g.sh, g.slice, o) ==> Alone(g, mem, lane, done)[lane][o] == mem[lane][o])
    decreases n
  {
    hide NewBlock, RandomWord, InSlice;
    if n > done {
      AloneAt(g, mem, lane, done, n - 1, o);
      PlaceIsValid(g, mem, n - 1);
    } else if n > 0 {
      AloneAt(g, mem, lane, n - 1, n - 1, o);
      PlaceIsValid(g, mem, n - 1);
    }
  }

  /** The block written at a place is the one computed from the memory of that moment. */
  lemma WrittenAt(g: Stage, mem: Memory, lane: nat, done: nat)
    requires Ready(g, mem) && lane < g.sh.lanes && done < Quota(g)
    ensures Offset(g.sh, Place(g, done)) < LaneLength(g.sh)
    ensures
      var now := Alone(g, mem, lane, done);
      SliceDone(g, mem)[lane][Offset(g.sh, Place(g, done))] ==
      NewBlock(g, now, lane, done, RandomWord(g, now, lane, done))
  {
    hide NewBlock, RandomWord, InSlice;
    PlaceIsValid(g, mem, done);
    AloneAt(g, mem, lane, done + 1, Quota(g), Offset(g.sh, Place(g, done)));
    assert Alone(g, mem, lane, done + 1) == FillOne(g, Alone(g, mem, lane, done), lane, done);
  }

  /** Outside its slice nothing changes. */
  lemma SliceKeeps(g: Stage, mem: Memory, l: nat, o: nat)
    requires Ready(g, mem) && l < g.sh.lanes && o < LaneLength(g.sh) && !InSlice(g.sh, g.slice, o)
    ensures SliceDone(g, mem)[l][o] == mem[l][o]
  {
    hide Alone, InSlice, Quota;
    AloneMoves(g, mem, l, Quota(g));
  }

  function StageOf(job: Job, pos: Position): Stage {
    Stage(job.sh, job.kind, job.x, job.passes, pos.pass, pos.slice)
  }

  /** What the lane sees in the moment a block is filled, in terms of the slice as a whole. */
  lemma Seen(g: Stage, mem: Memory, lane: nat, done: nat, l: nat, z: nat)
    requires Ready(g, mem) && lane < g.sh.lanes && l < g.sh.lanes && done < Quota(g) && z < LaneLength(g.sh)
    requires l != lane ==> !InSlice(g.sh, g.slice, z)
    ensures
      var here, now, end := Offset(g.sh, Place(g, done)), Alone(g, mem, lane, done), SliceDone(g, mem);
      now[l][z] == if z < here then end[l][z] else mem[l][z]
  {
    hide Alone, Quota, Offset, Place;
    if l == lane {
      AloneAt(g, mem, lane, done, Quota(g), z);
    } else {
      AloneMoves(g, mem, lane, done);
      SliceKeeps(g, mem, l, z);
    }
  }

  /** The block before, as the lane sees it. */
  lemma SeenBefore(g: Stage, mem: Memory, lane: nat, done: nat)
    requires Ready(g, mem) && lane < g.sh.lanes && done < Quota(g)
    ensures
      var o, now := Offset(g.sh, Place(g, done)), Alone(g, mem, lane, done);
      && o < LaneLength(g.sh) && Predecessor(g.sh, o) < LaneLength(g.sh)
      && now[lane][Predecessor(g.sh, o)] == Previous(g.sh, mem, SliceDone(g, mem), lane, o)
  {
    hide Alone, SliceDone, InSlice;
    PlaceIsValid(g, mem, done);
    Seen(g, mem, lane, done, lane, Predecessor(g.sh, Offset(g.sh, Place(g, done))));
  }

  /** One slice satisfies the equations of its blocks. */
  lemma SliceFollows(job: Job, mem: Memory, lane: nat, pos: Position)
    requires Fits(job.sh) && HasShape(job.sh, mem) && lane < job.sh.lanes && ValidPosition(job.sh, pos)
    ensures Follows(job, mem, SliceDone(StageOf(job, pos), mem), lane, pos)
  {
    hide Picks, Candidates, IndexAlpha, Address, Alone, SliceDone, InSlice, AreaSize, SliceStart, Previous;
    var g, done := StageOf(job, pos), pos.index - StartingIndex(pos.pass, pos.slice);
    assert done < Quota(g) && Place(g, done) == pos;
    var now, o := Alone(g, mem, lane, done), Offset(job.sh, pos);
    PlaceIsValid(g, mem, done);
    WrittenAt(g, mem, lane, done);
    SeenBefore(g, mem, lane, done);
    var rand := Word(job, lane, pos, Previous(job.sh, mem, SliceDone(g, mem), lane, o));
    assert rand == RandomWord(g, now, lane, done);
    var l := Lane(job, lane, pos, rand);
    var z := IndexAlpha(job.sh, pos, rand % TWO32, l == lane);
    ReferencesAreSafe(job.sh, pos, rand % TWO32, l == lane);
    IndexAlphaPicks(job.sh, pos, rand % TWO32, l == lane);
    Seen(g, mem, lane, done, l, z);
    Seen(g, mem, lane, done, lane, o);
    assert FollowsFrom(job, mem, SliceDone(g, mem), lane, pos, z);
  }

  // ---- a whole pass ----

  lemma {:induction false} AheadKept(job: Job, mem: Memory, r: nat, s: nat, l: nat, o: nat)
    requires Fits(job.sh) && HasShape(job.sh, mem) && s < 4 && l < job.sh.lanes
    requires SliceStart(job.sh, s) <= o < LaneLength(job.sh)
    ensures Filled(job, mem, 4 * r + s)[l][o] == Filled(job, mem, 4 * r)[l][o]
    decreases s
  {
    hide SliceDone;
    if s > 0 {
      AheadKept(job, mem, r, s - 1, l, o);
      SliceKeeps(StageAt(job, 4 * r + s - 1), Filled(job, mem, 4 * r + s - 1), l, o);
    }
  }

  lemma {:induction false} BehindKept(job: Job, mem: Memory, r: nat, s: nat, n: nat, l: nat, o: nat)
    requires Fits(job.sh) && HasShape(job.sh, mem) && s < n <= 4 && l < job.sh.lanes
    requires o < SliceStart(job.sh, s) + job.sh.segment && o < LaneLength(job.sh)
    ensures Filled(job, mem, 4 * r + n)[l][o] == Filled(job, mem, 4 * r + s + 1)[l][o]
    decreases n
  {
    hide SliceDone;
    if n > s + 1 {
      BehindKept(job, mem, r, s, n - 1, l, o);
      SliceKeeps(StageAt(job, 4 * r + n - 1), Filled(job, mem, 4 * r + n - 1), l, o);
    }
  }

  /** The two memories agree on blocks `lo` to `hi - 1` of every lane. */
  ghost predicate AgreeOn(sh: Shape, a: Memory, b: Memory, lo: nat, hi: nat) {
    && HasShape(sh, a) && HasShape(sh, b)
    && forall l, o | 0 <= l < sh.lanes && lo <= o < hi && o < LaneLength(sh) :: a[l][o] == b[l][o]
  }

  /** The equations of a slice look ahead only at what the pass has not reached, and back only at what
      it does not touch again. */
  lemma FollowsInPass(job: Job, mem: Memory, mem': Memory, before: Memory, after: Memory, lane: nat, pos: Position)
    requires Fits(job.sh) && lane < job.sh.lanes && ValidPosition(job.sh, pos)
    requires AgreeOn(job.sh, before, mem, SliceStart(job.sh, pos.slice), LaneLength(job.sh))
    requires AgreeOn(job.sh, after, mem', 0, SliceStart(job.sh, pos.slice) + job.sh.segment)
    requires Follows(job, mem, mem', lane, pos)
    ensures Follows(job, before, after, lane, pos)
  {
    hide Picks, Candidates, Address;
    var z: nat :| FollowsFrom(job, mem, mem', lane, pos, z);
    assert FollowsFrom(job, before, after, lane, pos, z);
  }

  /** A slice in its pass. */
  lemma SliceInPass(job: Job, mem: Memory, pos: Position)
    requires Fits(job.sh) && HasShape(job.sh, mem) && ValidPosition(job.sh, pos)
    ensures
      var r, t, start := 4 * pos.pass, 4 * pos.pass + pos.slice, SliceStart(job.sh, pos.slice);
      && AgreeOn(job.sh, Filled(job, mem, r), Filled(job, mem, t), start, LaneLength(job.sh))
      && AgreeOn(job.sh, Filled(job, mem, r + 4), Filled(job, mem, t + 1), 0, start + job.sh.segment)
  {
    hide Filled, SliceStart;
    var r, s := pos.pass, pos.slice;
    var start, end := SliceStart(job.sh, s), SliceStart(job.sh, s) + job.sh.segment;
    forall l, o | 0 <= l < job.sh.lanes && start <= o < LaneLength(job.sh)
      ensures Filled(job, mem, 4 * r)[l][o] == Filled(job, mem, 4 * r + s)[l][o]
    {
      AheadKept(job, mem, r, s, l, o);
    }
    var a, b := Filled(job, mem, 4 * r + 4), Filled(job, mem, 4 * r + s + 1);
    forall l, o | 0 <= l < job.sh.lanes && 0 <= o < end && o < LaneLength(job.sh) ensures a[l][o] == b[l][o] {
      BehindKept(job, mem, r, s, 4, l, o);
    }
  }

  lemma FilledNext(job: Job, mem: Memory, pos: Position)
    requires Fits(job.sh) && HasShape(job.sh, mem) && ValidPosition(job.sh, pos)
    ensures
      var t := 4 * pos.pass + pos.slice;
      && Filled(job, mem, t + 1) == SliceDone(StageOf(job, pos), Filled(job, mem, t))
      && HasShape(job.sh, Filled(job, mem, t)) && HasShape(job.sh, Filled(job, mem, t + 1))
  {
    hide SliceDone;
    assert StageAt(job, 4 * pos.pass + pos.slice) == StageOf(job, pos);
  }

  /** After every pass every block satisfies its equation. */
  lemma {:induction false} PassFollows(job: Job, mem: Memory, lane: nat, pos: Position)
    requires Fits(job.sh) && HasShape(job.sh, mem) && lane < job.sh.lanes && ValidPosition(job.sh, pos)
    ensures Follows(job, Filled(job, mem, 4 * pos.pass), Filled(job, mem, 4 * pos.pass + 4), lane, pos)
  {
    hide Filled, SliceDone, SliceStart, Follows, AgreeOn;
    var t := 4 * pos.pass + pos.slice;
    FilledNext(job, mem, pos);
    SliceFollows(job, Filled(job, mem, t), lane, pos);
    SliceInPass(job, mem, pos);
    FollowsInPass(job, Filled(job, mem, t), Filled(job, mem, t + 1), Filled(job, mem, 4 * pos.pass),
                  Filled(job, mem, 4 * pos.pass + 4), lane, pos);
  }

  // ---- the equations have one solution ----

  /** All blocks of a pass satisfy their equations. */
  ghost predicate Solves(job: Job, r: nat, before: Memory, after: Memory)
    requires Fits(job.sh)
  {
    && HasShape(job.sh, before) && HasShape(job.sh, after)
    && forall lane, pos | 0 <= lane < job.sh.lanes && ValidPosition(job.sh, pos) && pos.pass == r ::
      Follows(job, before, after, lane, pos)
  }

  /** Every block of a pass but the first two of the first has its position. */
  lemma PositionAt(sh: Shape, r: nat, o: nat) returns (pos: Position)
    requires Fits(sh) && (if r == 0 then 2 else 0) <= o < LaneLength(sh)
    ensures ValidPosition(sh, pos) && pos.pass == r && SliceStart(sh, pos.slice) + pos.index == o
  {
    var s := if o < sh.segment then 0 else if o < 2 * sh.segment then 1 else if o < 3 * sh.segment then 2 else 3;
    pos := Position(r, s, o - SliceStart(sh, s));
  }

  /** What a block is follows from the blocks before it. */
  lemma NextDetermined(job: Job, before: Memory, a: Memory, b: Memory, lane: nat, pos: Position)
    requires Fits(job.sh) && lane < job.sh.lanes && ValidPosition(job.sh, pos) && HasShape(job.sh, before)
    requires AgreeOn(job.sh, a, b, 0, SliceStart(job.sh, pos.slice) + pos.index)
    requires Follows(job, before, a, lane, pos) && Follows(job, before, b, lane, pos)
    ensures
      var o := SliceStart(job.sh, pos.slice) + pos.index;
      a[lane][o] == b[lane][o]
  {
    hide Picks, Candidates, Address;
    var z: nat :| FollowsFrom(job, before, a, lane, pos, z);
    var z': nat :| FollowsFrom(job, before, b, lane, pos, z');
    var o := SliceStart(job.sh, pos.slice) + pos.index;
    var rand := Word(job, lane, pos, Previous(job.sh, before, a, lane, o));
    PicksUnique(Candidates(job.sh, pos, Lane(job, lane, pos, rand) == lane), rand % TWO32, z, z');
  }

  lemma {:induction false} SolutionsAgree(job: Job, r: nat, before: Memory, a: Memory, b: Memory, n: nat)
    requires Fits(job.sh) && Solves(job, r, before, a) && Solves(job, r, before, b) && n <= LaneLength(job.sh)
    requires r == 0 ==> AgreeOn(job.sh, a, b, 0, 2)
    ensures AgreeOn(job.sh, a, b, 0, n)
    decreases n
  {
    hide Follows, SliceStart, ValidPosition;
    if n > 0 {
      SolutionsAgree(job, r, before, a, b, n - 1);
      if r != 0 || n > 2 {
        var pos := PositionAt(job.sh, r, n - 1);
        forall l | 0 <= l < job.sh.lanes ensures a[l][n - 1] == b[l][n - 1] {
          NextDetermined(job, before, a, b, l, pos);
        }
      }
    }
  }

  /** The memory after pass `r` is the one solution of its equations that keeps, in the first pass, the
      first two blocks of each lane. */
  lemma {:induction false} PassIsSolution(job: Job, mem: Memory, r: nat, after: Memory)
    requires Fits(job.sh) && HasShape(job.sh, mem)
    ensures
      var before := Filled(job, mem, 4 * r);
      after == Filled(job, mem, 4 * r + 4) <==>
        Solves(job, r, before, after) && (r == 0 ==> AgreeOn(job.sh, after, before, 0, 2))
  {
    hide Follows, Filled, ValidPosition, SliceStart;
    var before, end := Filled(job, mem, 4 * r), Filled(job, mem, 4 * r + 4);
    forall lane, pos | 0 <= lane < job.sh.lanes && ValidPosition(job.sh, pos) && pos.pass == r
      ensures Follows(job, before, end, lane, pos)
    {
      PassFollows(job, mem, lane, pos);
    }
    if r == 0 { FirstTwoKept(job, mem); }
    if Solves(job, r, before, after) && (r == 0 ==> AgreeOn(job.sh, after, before, 0, 2)) {
      SolutionsAgree(job, r, before, after, end, LaneLength(job.sh));
      forall l | 0 <= l < job.sh.lanes ensures after[l] == end[l] {}
    }
  }

  lemma {:induction false} FirstTwoKept(job: Job, mem: Memory)
    requires Fits(job.sh) && HasShape(job.sh, mem)
    ensures AgreeOn(job.sh, Filled(job, mem, 4), Filled(job, mem, 0), 0, 2)
  {
    hide Filled;
    var a, b := Filled(job, mem, 4), Filled(job, mem, 0);
    forall l, o | 0 <= l < job.sh.lanes && 0 <= o < 2 ensures a[l][o] == b[l][o] {
      BehindKept(job, mem, 0, 0, 4, l, o);
      FirstSliceKeepsTwo(job, mem, l, o);
    }
  }

  lemma {:induction false} FirstSliceKeepsTwo(job: Job, mem: Memory, l: nat, o: nat)
    requires Fits(job.sh) && HasShape(job.sh, mem) && l < job.sh.lanes && o < 2
    ensures Filled(job, mem, 1)[l][o] == Filled(job, mem, 0)[l][o]
  {
    hide Alone;
    var g := StageAt(job, 0);
    AloneAt(g, mem, l, 0, Quota(g), o);
    AloneNone(g, mem, l);
    assert Filled(job, mem, 1) == SliceDone(g, mem);
  }

  lemma AloneNone(g: Stage, mem: Memory, lane: nat)
    requires Ready(g, mem) && lane < g.sh.lanes
    ensures Alone(g, mem, lane, 0) == mem
  {}
}
