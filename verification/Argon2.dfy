/** Argon2 memory filling: argon2-core.h, argon2-fill-block-ref.c, argon2-core.c and argon2.c of the
    bundled libsodium.  How two blocks are mixed stays abstract; which blocks are mixed, in what
    order, and that the order of the lanes does not matter, is what is proved. */
module Argon2 {
  import opened Words

  const SYNC_POINTS: nat := 4
  const MAX_LANES: nat := 0xFFFFFF

  datatype Kind = Argon2i | Argon2id

  /** Lanes and the length of a segment; a lane is four segments. */
  datatype Shape = Shape(lanes: nat, segment: nat)

  predicate Fits(sh: Shape) {
    1 <= sh.lanes <= MAX_LANES && sh.segment >= 2 && 4 * sh.segment < TWO32
  }

  function LaneLength(sh: Shape): nat {
    4 * sh.segment
  }

  datatype Position = Position(pass: nat, slice: nat, index: nat)

  /** The first two blocks of each lane are made before the filling starts. */
  function StartingIndex(pass: nat, slice: nat): nat {
    if pass == 0 && slice == 0 then 2 else 0
  }

  predicate ValidPosition(sh: Shape, pos: Position) {
    pos.slice < 4 && StartingIndex(pos.pass, pos.slice) <= pos.index < sh.segment
  }

  /** Where the block at `pos` lies in its lane, and its predecessor with wrap-around. */
  function Offset(sh: Shape, pos: Position): nat {
    SliceStart(sh, pos.slice) + pos.index
  }

  /** `slice * segment_length`, for the four slices there are. */
  function SliceStart(sh: Shape, slice: nat): nat {
    if slice == 0 then 0 else if slice == 1 then sh.segment else if slice == 2 then 2 * sh.segment else 3 * sh.segment
  }

  predicate InSlice(sh: Shape, slice: nat, offset: nat) {
    SliceStart(sh, slice) <= offset < SliceStart(sh, slice) + sh.segment
  }

  function Predecessor(sh: Shape, offset: nat): nat
    requires sh.segment > 0
  {
    if offset == 0 then LaneLength(sh) - 1 else offset - 1
  }

  // ---- the reference index ----

  /** `reference_area_size`, in unsigned 32-bit arithmetic. */
  function AreaSize(sh: Shape, pos: Position, sameLane: bool): u32 {
    if pos.pass == 0 then
      if pos.slice == 0 then Wrap32(pos.index - 1)
      else if sameLane then Wrap32(pos.slice * sh.segment + pos.index - 1)
      else Wrap32(pos.slice * sh.segment + if pos.index == 0 then -1 else 0)
    else if sameLane then Wrap32(LaneLength(sh) - sh.segment + pos.index - 1)
    else Wrap32(LaneLength(sh) - sh.segment + if pos.index == 0 then -1 else 0)
  }

  /** The skewed distribution over the area, in 64-bit arithmetic. */
  function Relative(area: u32, rand: u32): u64 {
    var x := rand * rand / TWO32;
    Wrap64(Wrap32(area - 1) - Wrap64(area * x) / TWO32)
  }

  function StartPosition(sh: Shape, pos: Position): u32 {
    if pos.pass != 0 && pos.slice != SYNC_POINTS - 1 then Wrap32((pos.slice + 1) * sh.segment) else 0
  }

  /** `index_alpha`. */
  function IndexAlpha(sh: Shape, pos: Position, rand: u32, sameLane: bool): (r: nat)
    requires sh.segment > 0
    ensures r < LaneLength(sh)
  {
    Wrap64(StartPosition(sh, pos) + Relative(AreaSize(sh, pos, sameLane), rand)) % LaneLength(sh)
  }

  lemma NoWrap(x: int)
    ensures 0 <= x < TWO32 ==> Wrap32(x) == x
    ensures 0 <= x < TWO64 ==> Wrap64(x) == x
  {}

  /** `n >> 32`. */
  predicate IsHigh(q: int, n: int) {
    q * TWO32 <= n < (q + 1) * TWO32
  }

  /** With x the high half of the square of the word, the block chosen is the high half of area * x
      before the last of the area. */
  lemma RelativeInArea(area: u32, rand: u32)
    requires area > 0
    ensures 0 <= Relative(area, rand) < area
    ensures exists x: int :: IsHigh(x, rand * rand) && IsHigh(area - 1 - Relative(area, rand), area * x)
  {
    SquareBound(rand);
    var x: u32 := rand * rand / TWO32;
    ScaledBound(area, x);
    var y: int := area * x;
    NoWrap(y);
    NoWrap(area - 1);
    NoWrap(area - 1 - y / TWO32);
    hide Wrap32, Wrap64;
    assert Relative(area, rand) == area - 1 - y / TWO32;
    assert IsHigh(x, rand * rand) && IsHigh(y / TWO32, area * x);
  }

  lemma SquareBound(rand: u32)
    ensures 0 <= rand * rand / TWO32 < TWO32
  {
    assert rand * rand <= (TWO32 - 1) * (TWO32 - 1) by {
      if rand < TWO32 - 1 { ProductGap(rand, rand, TWO32 - 1); ProductGap(TWO32 - 1, rand, TWO32 - 1); }
    }
  }

  lemma ScaledBound(area: u32, x: u32)
    requires area > 0
    ensures 0 <= area * x / TWO32 < area && area * x < TWO64
  {
    ProductGap(area, x, TWO32);
    assert area * x < area * TWO32;
    assert area * TWO32 <= (TWO32 - 1) * TWO32;
  }

  /** What a block may refer to.  In its own lane: a block that is finished and is neither itself
      nor its predecessor.  In another lane: a finished block outside the slice being filled. */
  predicate Referable(sh: Shape, pos: Position, sameLane: bool, ref: nat)
    requires sh.segment > 0
  {
    var cur := Offset(sh, pos);
    && ref < LaneLength(sh)
    && (sameLane ==> ref != cur && ref != Predecessor(sh, cur) && (pos.pass == 0 ==> ref < cur))
    && (sameLane && InSlice(sh, pos.slice, ref) ==> ref < cur)
    && (!sameLane ==> !InSlice(sh, pos.slice, ref))
    && (!sameLane && pos.pass == 0 ==> ref < SliceStart(sh, pos.slice))
  }

  /** The area holds at least one block and stays clear of the current block: nothing wraps. */
  lemma AreaIs(sh: Shape, pos: Position, sameLane: bool)
    requires Fits(sh) && ValidPosition(sh, pos) && (pos.pass == 0 && pos.slice == 0 ==> sameLane)
    ensures
      var before := if pos.pass == 0 then SliceStart(sh, pos.slice) else 3 * sh.segment;
      var area: int := AreaSize(sh, pos, sameLane);
      area > 0 && area == if sameLane then before + pos.index - 1 else before - if pos.index == 0 then 1 else 0
  {
    hide Wrap32;
    var before := if pos.pass == 0 then SliceStart(sh, pos.slice) else 3 * sh.segment;
    SliceProduct(sh, pos.slice);
    NoWrap(pos.index - 1);
    NoWrap(before + pos.index - 1);
    NoWrap(before - 1);
    NoWrap(before);
    assert pos.pass != 0 ==> LaneLength(sh) - sh.segment == before;
  }

  lemma SliceProduct(sh: Shape, slice: nat)
    requires slice < 4
    ensures slice * sh.segment == SliceStart(sh, slice)
    ensures (slice + 1) * sh.segment == SliceStart(sh, slice) + sh.segment
  {}

  lemma ModOnce(x: nat, n: nat)
    requires x < 2 * n
    ensures x % n == if x < n then x else x - n
  {
    if x >= n { ModUnique(x, n, 1, x - n); } else { ModUnique(x, n, 0, x); }
  }

  /** The start of the area as a plain number, and the index without any wrap-around. */
  function Start(sh: Shape, pos: Position): nat {
    if pos.pass != 0 && pos.slice != 3 then SliceStart(sh, pos.slice) + sh.segment else 0
  }

  lemma IndexIs(sh: Shape, pos: Position, rand: u32, sameLane: bool)
    requires Fits(sh) && ValidPosition(sh, pos) && AreaSize(sh, pos, sameLane) <= LaneLength(sh)
    ensures var x: int := Start(sh, pos) + Relative(AreaSize(sh, pos, sameLane), rand);
      x < 2 * LaneLength(sh) ==>
        IndexAlpha(sh, pos, rand, sameLane) == if x < LaneLength(sh) then x else x - LaneLength(sh)
  {
    SliceProduct(sh, pos.slice);
    NoWrap((pos.slice + 1) * sh.segment);
    var x: int := Start(sh, pos) + Relative(AreaSize(sh, pos, sameLane), rand);
    NoWrap(x);
    hide Relative, AreaSize, Wrap32, Wrap64;
    if x < 2 * LaneLength(sh) { ModOnce(x, LaneLength(sh)); }
  }

  lemma ReferencesAreSafe(sh: Shape, pos: Position, rand: u32, sameLane: bool)
    requires Fits(sh) && ValidPosition(sh, pos)
    requires pos.pass == 0 && pos.slice == 0 ==> sameLane
    ensures Referable(sh, pos, sameLane, IndexAlpha(sh, pos, rand, sameLane))
  {
    hide Relative, AreaSize, IndexAlpha;
    AreaIs(sh, pos, sameLane);
    RelativeInArea(AreaSize(sh, pos, sameLane), rand);
    IndexIs(sh, pos, rand, sameLane);
  }

  // ---- blocks ----

  const WORDS: nat := 128

  function ZeroWords(): (v: seq<u64>)
    ensures |v| == WORDS
  {
    seq(WORDS, i => 0)
  }

  type Words128 = v: seq<u64> | |v| == WORDS witness ZeroWords()

  /** A kilobyte of 64-bit words. */
  datatype Block = Block(v: Words128)

  function ZeroBlock(): Block {
    Block(ZeroWords())
  }

  /** How two blocks are mixed is left abstract: (previous, reference), and (previous, reference,
      old content) from the second pass on. */
  datatype Mixer = Mixer(fill: (Block, Block) -> Block, fillXor: (Block, Block, Block) -> Block)

  /** One slice of one pass over memory of a given shape; `passes` is how many there will be. */
  datatype Stage = Stage(sh: Shape, kind: Kind, x: Mixer, passes: nat, pass: nat, slice: nat)

  /** The memory, one row per lane. */
  type Memory = seq<seq<Block>>

  predicate HasShape(sh: Shape, mem: Memory) {
    |mem| == sh.lanes && forall l | 0 <= l < sh.lanes :: |mem[l]| == LaneLength(sh)
  }

  predicate Ready(g: Stage, mem: Memory) {
    Fits(g.sh) && g.slice < 4 && HasShape(g.sh, mem)
  }

  // ---- addresses of data-independent segments ----

  predicate DataIndependent(kind: Kind, pass: nat, slice: nat) {
    !(kind == Argon2id && (pass != 0 || slice >= SYNC_POINTS / 2))
  }

  /** The seven words that tell one address block from another. */
  function InputBlock(g: Stage, lane: nat, counter: nat): Block {
    Block([Wrap64(g.pass), Wrap64(lane), Wrap64(g.slice), Wrap64(g.sh.lanes * LaneLength(g.sh)), Wrap64(g.passes),
           if g.kind == Argon2i then 1 else 2, Wrap64(counter)] + ZeroWords()[7..])
  }

  function AddressBlock(g: Stage, lane: nat, counter: nat): Block {
    g.x.fillXor(ZeroBlock(), g.x.fillXor(ZeroBlock(), InputBlock(g, lane, counter), ZeroBlock()), ZeroBlock())
  }

  /** Word `i` of the segment: address blocks are numbered from 1 and hold 128 words each. */
  function Address(g: Stage, lane: nat, i: nat): u64 {
    AddressBlock(g, lane, i / WORDS + 1).v[i % WORDS]
  }

  function Addresses(g: Stage, lane: nat): (s: seq<u64>)
    ensures |s| == g.sh.segment
  {
    seq(g.sh.segment, i requires 0 <= i < g.sh.segment => Address(g, lane, i))
  }

  // ---- filling ----

  /** How many blocks a lane fills in this slice. */
  function Quota(g: Stage): nat {
    if g.sh.segment < StartingIndex(g.pass, g.slice) then 0 else g.sh.segment - StartingIndex(g.pass, g.slice)
  }

  /** The position of a lane that has filled `done` blocks of this slice. */
  function Place(g: Stage, done: nat): Position {
    Position(g.pass, g.slice, StartingIndex(g.pass, g.slice) + done)
  }

  lemma PlaceIsValid(g: Stage, mem: Memory, done: nat)
    requires Ready(g, mem) && done < Quota(g)
    ensures ValidPosition(g.sh, Place(g, done))
    ensures Offset(g.sh, Place(g, done)) < LaneLength(g.sh)
    ensures Predecessor(g.sh, Offset(g.sh, Place(g, done))) < LaneLength(g.sh)
    ensures InSlice(g.sh, g.slice, Offset(g.sh, Place(g, done)))
  {}

  /** The word that picks the reference in a data-dependent slice: the first of the lane's previous
      block. */
  function PreviousWord(g: Stage, mem: Memory, lane: nat, done: nat): u64
    requires Ready(g, mem) && lane < g.sh.lanes && done < Quota(g)
  {
    PlaceIsValid(g, mem, done);
    mem[lane][Predecessor(g.sh, Offset(g.sh, Place(g, done)))].v[0]
  }

  /** The word that is meant to pick the reference. */
  function RandomWord(g: Stage, mem: Memory, lane: nat, done: nat): u64
    requires Ready(g, mem) && lane < g.sh.lanes && done < Quota(g)
  {
    if DataIndependent(g.kind, g.pass, g.slice) then Address(g, lane, Place(g, done).index)
    else PreviousWord(g, mem, lane, done)
  }

  /** No other lane can be referred to before the first slice is finished. */
  function RefLane(g: Stage, rand: u64, lane: nat): (r: nat)
    requires lane < g.sh.lanes
    ensures r < g.sh.lanes
  {
    if g.pass == 0 && g.slice == 0 then lane else rand / TWO32 % g.sh.lanes
  }

  /** The new content of the next block of `lane`, its reference picked by `rand`. */
  function NewBlock(g: Stage, mem: Memory, lane: nat, done: nat, rand: u64): Block
    requires Ready(g, mem) && lane < g.sh.lanes && done < Quota(g)
  {
    PlaceIsValid(g, mem, done);
    var pos := Place(g, done);
    var refLane := RefLane(g, rand, lane);
    var refBlock := mem[refLane][IndexAlpha(g.sh, pos, rand % TWO32, refLane == lane)];
    var prevBlock := mem[lane][Predecessor(g.sh, Offset(g.sh, pos))];
    if g.pass != 0 then g.x.fillXor(prevBlock, refBlock, mem[lane][Offset(g.sh, pos)])
    else g.x.fill(prevBlock, refBlock)
  }

  function FillWith(g: Stage, mem: Memory, lane: nat, done: nat, rand: u64): (mem': Memory)
    requires Ready(g, mem) && lane < g.sh.lanes && done < Quota(g)
    ensures Ready(g, mem')
  {
    PlaceIsValid(g, mem, done);
    mem[lane := mem[lane][Offset(g.sh, Place(g, done)) := NewBlock(g, mem, lane, done, rand)]]
  }

  function FillOne(g: Stage, mem: Memory, lane: nat, done: nat): (mem': Memory)
    requires Ready(g, mem) && lane < g.sh.lanes && done < Quota(g)
    ensures Ready(g, mem')
  {
    FillWith(g, mem, lane, done, RandomWord(g, mem, lane, done))
  }

  /** `lane` fills the first `n` blocks of its segment and nobody else does anything. */
  function Alone(g: Stage, mem: Memory, lane: nat, n: nat): (mem': Memory)
    requires Ready(g, mem) && lane < g.sh.lanes && n <= Quota(g)
    ensures Ready(g, mem') && |mem'| == g.sh.lanes
    decreases n
  {
    if n == 0 then mem else FillOne(g, Alone(g, mem, lane, n - 1), lane, n - 1)
  }

  // ---- what a block can see, and what it touches ----

  /** Two rows that agree outside the slice. */
  ghost predicate SameOutside(g: Stage, r: seq<Block>, r': seq<Block>) {
    |r| == |r'| && forall o | 0 <= o < |r| && !InSlice(g.sh, g.slice, o) :: r[o] == r'[o]
  }

  lemma SameOutsideLaws(g: Stage, r: seq<Block>, r': seq<Block>, r'': seq<Block>)
    ensures SameOutside(g, r, r)
    ensures SameOutside(g, r, r') ==> SameOutside(g, r', r)
    ensures SameOutside(g, r, r') && SameOutside(g, r', r'') ==> SameOutside(g, r, r'')
  {}

  /** Two memories that the next block of `lane` cannot tell apart. */
  ghost predicate LooksSame(g: Stage, lane: nat, a: Memory, b: Memory) {
    && |a| == |b| == g.sh.lanes && lane < g.sh.lanes
    && a[lane] == b[lane]
    && forall l | 0 <= l < g.sh.lanes :: SameOutside(g, a[l], b[l])
  }

  /** `b` is `a` but for the lane's own part of the slice. */
  ghost predicate OnlyLaneMoved(g: Stage, lane: nat, a: Memory, b: Memory) {
    && |a| == |b| == g.sh.lanes && lane < g.sh.lanes
    && (forall l | 0 <= l < g.sh.lanes && l != lane :: a[l] == b[l])
    && SameOutside(g, a[lane], b[lane])
  }

  lemma FillWithMoves(g: Stage, mem: Memory, lane: nat, done: nat, rand: u64)
    requires Ready(g, mem) && lane < g.sh.lanes && done < Quota(g)
    ensures OnlyLaneMoved(g, lane, mem, FillWith(g, mem, lane, done, rand))
  {
    hide NewBlock, InSlice, Offset, Quota, Place;
    PlaceIsValid(g, mem, done);
  }

  lemma FillWithSees(g: Stage, a: Memory, b: Memory, lane: nat, done: nat, rand: u64)
    requires Ready(g, a) && Ready(g, b) && lane < g.sh.lanes && done < Quota(g) && LooksSame(g, lane, a, b)
    ensures NewBlock(g, a, lane, done, rand) == NewBlock(g, b, lane, done, rand)
    ensures FillWith(g, a, lane, done, rand)[lane] == FillWith(g, b, lane, done, rand)[lane]
  {
    hide IndexAlpha, AreaSize, InSlice, Quota, ValidPosition;
    PlaceIsValid(g, a, done);
    var refLane := RefLane(g, rand, lane);
    ReferencesAreSafe(g.sh, Place(g, done), rand % TWO32, refLane == lane);
    assert SameOutside(g, a[refLane], b[refLane]);
  }

  lemma FillOneMoves(g: Stage, mem: Memory, lane: nat, done: nat)
    requires Ready(g, mem) && lane < g.sh.lanes && done < Quota(g)
    ensures OnlyLaneMoved(g, lane, mem, FillOne(g, mem, lane, done))
  {
    hide FillWith, OnlyLaneMoved, RandomWord;
    FillWithMoves(g, mem, lane, done, RandomWord(g, mem, lane, done));
  }

  lemma FillOneSees(g: Stage, a: Memory, b: Memory, lane: nat, done: nat)
    requires Ready(g, a) && Ready(g, b) && lane < g.sh.lanes && done < Quota(g) && LooksSame(g, lane, a, b)
    ensures RandomWord(g, a, lane, done) == RandomWord(g, b, lane, done)
    ensures FillOne(g, a, lane, done)[lane] == FillOne(g, b, lane, done)[lane]
  {
    hide FillWith, Address, SameOutside;
    FillWithSees(g, a, b, lane, done, RandomWord(g, a, lane, done));
  }

  /** Filling alone touches nothing but the lane's own part of the slice. */
  lemma {:induction false} AloneMoves(g: Stage, mem: Memory, lane: nat, n: nat)
    requires Ready(g, mem) && lane < g.sh.lanes == |mem| && n <= Quota(g)
    ensures OnlyLaneMoved(g, lane, mem, Alone(g, mem, lane, n))
    decreases n
  {
    hide FillOne, SameOutside, Quota, Ready;
    SameOutsideLaws(g, mem[lane], mem[lane], mem[lane]);
    if n > 0 {
      AloneMoves(g, mem, lane, n - 1);
      var before := Alone(g, mem, lane, n - 1);
      FillOneMoves(g, before, lane, n - 1);
      SameOutsideLaws(g, mem[lane], before[lane], FillOne(g, before, lane, n - 1)[lane]);
    }
  }

  /** What a lane does alone depends only on what its blocks can see. */
  lemma {:induction false} AloneSees(g: Stage, a: Memory, b: Memory, lane: nat, n: nat)
    requires Ready(g, a) && Ready(g, b) && n <= Quota(g) && LooksSame(g, lane, a, b)
    requires lane < g.sh.lanes && |a| == |b| == g.sh.lanes && a[lane] == b[lane]
    ensures Alone(g, a, lane, n)[lane] == Alone(g, b, lane, n)[lane]
    decreases n
  {
    hide FillOne, LooksSame, OnlyLaneMoved, Quota, Ready;
    if n > 0 {
      AloneSees(g, a, b, lane, n - 1);
      AloneMoves(g, a, lane, n - 1);
      AloneMoves(g, b, lane, n - 1);
      var a', b' := Alone(g, a, lane, n - 1), Alone(g, b, lane, n - 1);
      StillLooksSame(g, lane, a, b, a', b');
      FillOneSees(g, a', b', lane, n - 1);
    }
  }

  lemma StillLooksSame(g: Stage, lane: nat, a: Memory, b: Memory, a': Memory, b': Memory)
    requires LooksSame(g, lane, a, b) && OnlyLaneMoved(g, lane, a, a') && OnlyLaneMoved(g, lane, b, b')
    requires |a'| > lane && |b'| > lane && a'[lane] == b'[lane]
    ensures LooksSame(g, lane, a', b')
  {
    SameOutsideLaws(g, a'[lane], b'[lane], b'[lane]);
    hide SameOutside;
  }

  // ---- the order of the lanes does not matter ----

  /** Each lane has filled `turns` of its blocks and is as if it had worked alone. */
  ghost predicate IsMerge(g: Stage, mem: Memory, turns: seq<nat>, mem': Memory)
    requires Ready(g, mem)
  {
    && Ready(g, mem') && |turns| == g.sh.lanes
    && forall l | 0 <= l < g.sh.lanes :: turns[l] <= Quota(g) && mem'[l] == Alone(g, mem, l, turns[l])[l]
  }

  lemma MergeLooksAlone(g: Stage, mem: Memory, turns: seq<nat>, a: Memory, lane: nat)
    requires Ready(g, mem) && IsMerge(g, mem, turns, a) && lane < g.sh.lanes
    ensures LooksSame(g, lane, a, Alone(g, mem, lane, turns[lane]))
  {
    hide SameOutside, Alone, Quota;
    AloneMoves(g, mem, lane, turns[lane]);
    var b := Alone(g, mem, lane, turns[lane]);
    forall l | 0 <= l < g.sh.lanes ensures SameOutside(g, a[l], b[l]) {
      AloneMoves(g, mem, l, turns[l]);
      SameOutsideLaws(g, mem[l], a[l], a[l]);
      SameOutsideLaws(g, a[l], a[l], a[l]);
    }
  }

  /** One more block by any lane keeps the memory a merge: what it reads in other lanes lies
      outside the slice, and what the others have written lies inside. */
  lemma OneTurn(g: Stage, mem: Memory, turns: seq<nat>, a: Memory, lane: nat)
    requires Ready(g, mem) && IsMerge(g, mem, turns, a) && lane < g.sh.lanes && turns[lane] < Quota(g)
    ensures IsMerge(g, mem, turns[lane := turns[lane] + 1], FillOne(g, a, lane, turns[lane]))
  {
    hide FillOne, SameOutside, LooksSame, Quota;
    var b := Alone(g, mem, lane, turns[lane]);
    MergeLooksAlone(g, mem, turns, a, lane);
    FillOneSees(g, a, b, lane, turns[lane]);
    FillOneMoves(g, a, lane, turns[lane]);
    assert Alone(g, mem, lane, turns[lane] + 1) == FillOne(g, b, lane, turns[lane]);
  }

  lemma NothingDone(g: Stage, mem: Memory, turns: seq<nat>)
    requires Ready(g, mem) && |turns| == g.sh.lanes && forall l | 0 <= l < |turns| :: turns[l] == 0
    ensures IsMerge(g, mem, turns, mem)
  {}

  // ---- all slices of all passes ----

  /** The memory after a whole slice. */
  ghost function SliceDone(g: Stage, mem: Memory): (mem': Memory)
    requires Ready(g, mem)
    ensures Ready(g, mem')
  {
    seq(g.sh.lanes, l requires 0 <= l < g.sh.lanes => Alone(g, mem, l, Quota(g))[l])
  }

  /** What stays the same over a whole computation. */
  datatype Job = Job(sh: Shape, kind: Kind, x: Mixer, passes: nat)

  /** Slice `t % 4` of pass `t / 4`. */
  function StageAt(job: Job, t: nat): Stage {
    Stage(job.sh, job.kind, job.x, job.passes, t / 4, t % 4)
  }

  /** The memory after the first `n` slices; lanes wait for each other between slices. */
  ghost function Filled(job: Job, mem: Memory, n: nat): (mem': Memory)
    requires Fits(job.sh) && HasShape(job.sh, mem)
    ensures HasShape(job.sh, mem')
  {
    if n == 0 then mem else SliceDone(StageAt(job, n - 1), Filled(job, mem, n - 1))
  }

  // ---- memory is written before it is read ----

  /** The two memories agree on the first `k` blocks of every lane. */
  ghost predicate AgreeBelow(sh: Shape, a: Memory, b: Memory, k: nat) {
    && HasShape(sh, a) && HasShape(sh, b)
    && forall l, o | 0 <= l < sh.lanes && 0 <= o < k && o < LaneLength(sh) :: a[l][o] == b[l][o]
  }

  /** In the first pass a block depends on nothing at or behind its own place, and in other lanes on
      nothing of the slice. */
  lemma FirstPassReads(g: Stage, a: Memory, b: Memory, lane: nat, done: nat)
    requires Ready(g, a) && Ready(g, b) && g.pass == 0 && lane < g.sh.lanes && done < Quota(g)
    requires AgreeBelow(g.sh, a, b, SliceStart(g.sh, g.slice))
    requires forall o | 0 <= o < Offset(g.sh, Place(g, done)) :: o < LaneLength(g.sh) ==> a[lane][o] == b[lane][o]
    ensures RandomWord(g, a, lane, done) == RandomWord(g, b, lane, done)
    ensures
      var rand := RandomWord(g, a, lane, done);
      NewBlock(g, a, lane, done, rand) == NewBlock(g, b, lane, done, rand)
  {
    hide IndexAlpha, AreaSize, InSlice, Quota, ValidPosition, Address;
    PlaceIsValid(g, a, done);
    BehindStart(g, a, done);
    var rand := RandomWord(g, a, lane, done);
    var refLane := RefLane(g, rand, lane);
    ReferencesAreSafe(g.sh, Place(g, done), rand % TWO32, refLane == lane);
  }

  lemma BehindStart(g: Stage, mem: Memory, done: nat)
    requires Ready(g, mem) && g.pass == 0 && done < Quota(g)
    ensures var o := Offset(g.sh, Place(g, done)); o > 0 && Predecessor(g.sh, o) == o - 1
  {}

  /** The rows of `lane` agree on everything before the block that is next after `n` of them. */
  ghost predicate RowAgrees(g: Stage, lane: nat, n: nat, a: Memory, b: Memory) {
    && lane < |a| == |b| && |a[lane]| == |b[lane]| == LaneLength(g.sh)
    && forall o | 0 <= o < Offset(g.sh, Place(g, n)) :: o < LaneLength(g.sh) ==> a[lane][o] == b[lane][o]
  }

  lemma RowAgreesNext(g: Stage, a: Memory, b: Memory, lane: nat, done: nat)
    requires Ready(g, a) && Ready(g, b) && g.pass == 0 && lane < g.sh.lanes && done < Quota(g)
    requires AgreeBelow(g.sh, a, b, SliceStart(g.sh, g.slice)) && RowAgrees(g, lane, done, a, b)
    ensures RowAgrees(g, lane, done + 1, FillOne(g, a, lane, done), FillOne(g, b, lane, done))
  {
    hide NewBlock, RandomWord, Quota;
    FirstPassReads(g, a, b, lane, done);
    PlaceIsValid(g, a, done);
  }

  lemma {:induction false} FirstPassAlone(g: Stage, a: Memory, b: Memory, lane: nat, n: nat)
    requires Ready(g, a) && Ready(g, b) && g.pass == 0 && lane < g.sh.lanes == |a| == |b| && n <= Quota(g)
    requires AgreeBelow(g.sh, a, b, SliceStart(g.sh, g.slice)) && RowAgrees(g, lane, 0, a, b)
    ensures RowAgrees(g, lane, n, Alone(g, a, lane, n), Alone(g, b, lane, n))
    decreases n
  {
    hide FillOne, RowAgrees, AgreeBelow, Quota, Ready, OnlyLaneMoved;
    if n > 0 {
      FirstPassAlone(g, a, b, lane, n - 1);
      var a', b' := Alone(g, a, lane, n - 1), Alone(g, b, lane, n - 1);
      AloneMoves(g, a, lane, n - 1);
      AloneMoves(g, b, lane, n - 1);
      StillAgree(g, lane, a, b, a', b');
      RowAgreesNext(g, a', b', lane, n - 1);
    }
  }

  /** Filling in the slice does not touch what lies before it. */
  lemma StillAgree(g: Stage, lane: nat, a: Memory, b: Memory, a': Memory, b': Memory)
    requires Ready(g, a) && Ready(g, b) && Ready(g, a') && Ready(g, b')
    requires AgreeBelow(g.sh, a, b, SliceStart(g.sh, g.slice))
    requires OnlyLaneMoved(g, lane, a, a') && OnlyLaneMoved(g, lane, b, b')
    ensures AgreeBelow(g.sh, a', b', SliceStart(g.sh, g.slice))
  {}

  /** How far the first pass has got after `t` slices. */
  function Reached(sh: Shape, t: nat): nat {
    if t == 0 then 2 else t * sh.segment
  }

  /** Memory that agrees on the first two blocks of each lane agrees on everything written so far:
      what was there before is never read. */
  lemma {:induction false} FirstPassForgets(job: Job, a: Memory, b: Memory, t: nat)
    requires Fits(job.sh) && AgreeBelow(job.sh, a, b, 2) && t <= 4
    ensures AgreeBelow(job.sh, Filled(job, a, t), Filled(job, b, t), Reached(job.sh, t))
    decreases t
  {
    hide Alone, Quota, Offset, Place;
    if t > 0 {
      FirstPassForgets(job, a, b, t - 1);
      var g, a', b' := StageAt(job, t - 1), Filled(job, a, t - 1), Filled(job, b, t - 1);
      ReachedIs(g, t);
      forall l | 0 <= l < job.sh.lanes ensures RowAgrees(g, l, Quota(g), SliceDone(g, a'), SliceDone(g, b')) {
        FirstPassAlone(g, a', b', l, Quota(g));
      }
      AllRowsAgree(g, Quota(g), SliceDone(g, a'), SliceDone(g, b'));
    }
  }

  lemma ReachedIs(g: Stage, t: nat)
    requires Fits(g.sh) && 0 < t <= 4 && g.pass == 0 && g.slice == t - 1
    ensures SliceStart(g.sh, g.slice) + StartingIndex(g.pass, g.slice) == Reached(g.sh, t - 1)
    ensures Offset(g.sh, Place(g, 0)) == Reached(g.sh, t - 1) && Offset(g.sh, Place(g, Quota(g))) == Reached(g.sh, t)
  {
    SliceProduct(g.sh, g.slice);
  }

  lemma AllRowsAgree(g: Stage, n: nat, a: Memory, b: Memory)
    requires HasShape(g.sh, a) && HasShape(g.sh, b) && forall l | 0 <= l < g.sh.lanes :: RowAgrees(g, l, n, a, b)
    ensures AgreeBelow(g.sh, a, b, Offset(g.sh, Place(g, n)))
  {
    hide Offset, Place;
    forall l, o | 0 <= l < g.sh.lanes && 0 <= o < Offset(g.sh, Place(g, n)) && o < LaneLength(g.sh)
      ensures a[l][o] == b[l][o]
    {
      assert RowAgrees(g, l, n, a, b);
    }
  }

  /** From the first pass on, the result depends on the first two blocks of each lane only. */
  lemma {:induction false} StartIsForgotten(job: Job, a: Memory, b: Memory, n: nat)
    requires Fits(job.sh) && AgreeBelow(job.sh, a, b, 2) && n >= 4
    ensures Filled(job, a, n) == Filled(job, b, n)
    decreases n
  {
    hide SliceDone;
    if n == 4 {
      FirstPassForgets(job, a, b, 4);
      SameMemory(job.sh, Filled(job, a, 4), Filled(job, b, 4));
    } else {
      StartIsForgotten(job, a, b, n - 1);
    }
  }

  lemma SameMemory(sh: Shape, a: Memory, b: Memory)
    requires AgreeBelow(sh, a, b, Reached(sh, 4))
    ensures a == b
  {
    forall l | 0 <= l < sh.lanes ensures a[l] == b[l] {}
  }
}
