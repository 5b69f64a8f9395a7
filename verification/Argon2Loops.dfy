/** The loops of argon2-fill-block-ref.c, argon2-core.c and argon2.c over one flat array of blocks,
    proved to compute the filling that module Argon2 shows to be independent of scheduling. */
module Argon2Loops {
  import opened Words
  import opened Argon2

  // ---- the flat layout ----

  /** Block `o` of lane `l` is at `l * lane_length + o`. */
  function Flat(sh: Shape, l: nat, o: nat): nat {
    l * LaneLength(sh) + o
  }

  predicate IsFlat(sh: Shape, s: seq<Block>) {
    |s| == sh.lanes * LaneLength(sh)
  }

  lemma FlatBound(sh: Shape, l: nat, o: nat)
    requires l < sh.lanes && o <= LaneLength(sh)
    ensures Flat(sh, l, o) <= sh.lanes * LaneLength(sh)
    ensures o < LaneLength(sh) ==> Flat(sh, l, o) < sh.lanes * LaneLength(sh)
  {
    ProductGap(LaneLength(sh), l, sh.lanes);
  }

  lemma FlatInjective(sh: Shape, l: nat, o: nat, m: nat, p: nat)
    requires o < LaneLength(sh) && p < LaneLength(sh) && Flat(sh, l, o) == Flat(sh, m, p)
    ensures l == m && o == p
  {
    if l < m { ProductGap(LaneLength(sh), l, m); }
    if m < l { ProductGap(LaneLength(sh), m, l); }
  }

  /** `curr_offset % lane_length` recovers the offset inside the lane. */
  lemma FlatOffset(sh: Shape, l: nat, o: nat)
    requires o < LaneLength(sh)
    ensures Flat(sh, l, o) % (4 * sh.segment) == o
  {
    ModUnique(Flat(sh, l, o), LaneLength(sh), l, o);
  }

  lemma FlatNext(sh: Shape, l: nat, o: nat, d: nat)
    ensures Flat(sh, l, o + d) == Flat(sh, l, o) + d
  {}

  ghost function Rows(sh: Shape, s: seq<Block>): (mem: Memory)
    requires IsFlat(sh, s)
    ensures HasShape(sh, mem)
  {
    seq(sh.lanes, l requires 0 <= l < sh.lanes => Row(sh, s, l))
  }

  ghost function Row(sh: Shape, s: seq<Block>, l: nat): (row: seq<Block>)
    requires IsFlat(sh, s) && l < sh.lanes
    ensures |row| == LaneLength(sh)
  {
    seq(LaneLength(sh), o requires 0 <= o < LaneLength(sh) => FlatBound(sh, l, o); s[Flat(sh, l, o)])
  }

  lemma RowsAt(sh: Shape, s: seq<Block>, l: nat, o: nat)
    requires IsFlat(sh, s) && l < sh.lanes && o < LaneLength(sh)
    ensures Flat(sh, l, o) < |s| && Rows(sh, s)[l][o] == s[Flat(sh, l, o)]
  {
    FlatBound(sh, l, o);
    hide Flat;
  }

  /** Storing one block changes one block. */
  lemma RowsUpdate(sh: Shape, s: seq<Block>, l: nat, o: nat, b: Block)
    requires IsFlat(sh, s) && l < sh.lanes && o < LaneLength(sh) && Flat(sh, l, o) < |s|
    ensures IsFlat(sh, s[Flat(sh, l, o) := b])
    ensures Rows(sh, s[Flat(sh, l, o) := b]) == Rows(sh, s)[l := Rows(sh, s)[l][o := b]]
  {
    hide Flat;
    var t := s[Flat(sh, l, o) := b];
    forall m | 0 <= m < sh.lanes ensures Row(sh, t, m) == if m == l then Row(sh, s, l)[o := b] else Row(sh, s, m) {
      forall p | 0 <= p < LaneLength(sh)
        ensures Row(sh, t, m)[p] == if m == l && p == o then b else Row(sh, s, m)[p]
      {
        FlatBound(sh, m, p);
        if Flat(sh, l, o) == Flat(sh, m, p) { FlatInjective(sh, l, o, m, p); }
      }
    }
  }

  // ---- the loops ----

  /** `generate_addresses`: one input block whose counter goes up every 128 words, and two fills for
      each of its values. */
  method GenerateAddresses(g: Stage, lane: nat, pseudoRands: array<u64>)
    requires pseudoRands.Length == g.sh.segment < TWO32
    modifies pseudoRands
    ensures pseudoRands[..] == Addresses(g, lane)
  {
    hide AddressBlock, InputBlock;
    var zero := ZeroBlock();
    var input := InputBlock(g, lane, 0);
    var address := ZeroBlock();
    for i := 0 to g.sh.segment
      invariant input == InputBlock(g, lane, (i + WORDS - 1) / WORDS)
      invariant i > 0 ==> address == AddressBlock(g, lane, (i - 1) / WORDS + 1)
      invariant forall j | 0 <= j < i :: pseudoRands[j] == Address(g, lane, j)
    {
      BlockNumber(i);
      if i % WORDS == 0 {
        CounterBumped(g, lane, i / WORDS);
        input := Block(input.v[6 := Wrap64(input.v[6] as int + 1)]);
        AddressOf(g, lane, i / WORDS + 1);
        var tmp := g.x.fillXor(zero, input, ZeroBlock());
        address := g.x.fillXor(zero, tmp, ZeroBlock());
      }
      pseudoRands[i] := address.v[i % WORDS];
    }
  }

  lemma BlockNumber(i: nat)
    ensures i % WORDS == 0 ==> (i + WORDS - 1) / WORDS == i / WORDS
    ensures i % WORDS != 0 ==> (i + WORDS - 1) / WORDS == i / WORDS + 1 && (i - 1) / WORDS == i / WORDS
    ensures (i + 1 + WORDS - 1) / WORDS == i / WORDS + 1
  {
    var q, r := i / WORDS, i % WORDS;
    if r == 0 {
      ModUnique(i + WORDS - 1, WORDS, q, WORDS - 1);
    } else {
      ModUnique(i + WORDS - 1, WORDS, q + 1, r - 1);
      ModUnique(i - 1, WORDS, q, r - 1);
    }
    ModUnique(i + WORDS, WORDS, q + 1, r);
  }

  lemma CounterBumped(g: Stage, lane: nat, k: nat)
    requires k < TWO32
    ensures var input := InputBlock(g, lane, k);
      Block(input.v[6 := Wrap64(input.v[6] as int + 1)]) == InputBlock(g, lane, k + 1)
  {
    NoWrap(k);
    NoWrap(k + 1);
  }

  lemma AddressOf(g: Stage, lane: nat, k: nat)
    ensures AddressBlock(g, lane, k)
         == g.x.fillXor(ZeroBlock(), g.x.fillXor(ZeroBlock(), InputBlock(g, lane, k), ZeroBlock()), ZeroBlock())
  {}

  /** One iteration of the segment loop. */
  method FillBlock(g: Stage, lane: nat, i: nat, currOffset: nat, prevOffset: nat, mem: array<Block>,
                   pseudoRands: array<u64>)
    requires Fits(g.sh) && g.slice < 4 && lane < g.sh.lanes && IsFlat(g.sh, mem[..])
    requires pseudoRands.Length == g.sh.segment && StartingIndex(g.pass, g.slice) <= i < g.sh.segment
    requires currOffset == Flat(g.sh, lane, SliceStart(g.sh, g.slice) + i)
    requires prevOffset == Flat(g.sh, lane, Predecessor(g.sh, SliceStart(g.sh, g.slice) + i))
    requires DataIndependent(g.kind, g.pass, g.slice) ==> pseudoRands[..] == Addresses(g, lane)
    modifies mem
    ensures Ready(g, Rows(g.sh, old(mem[..]))) && i - StartingIndex(g.pass, g.slice) < Quota(g)
    ensures Rows(g.sh, mem[..]) == FillOne(g, Rows(g.sh, old(mem[..])), lane, i - StartingIndex(g.pass, g.slice))
  {
    hide Flat, IndexAlpha, AreaSize, Rows, Address;
    ghost var s, rows, done := mem[..], Rows(g.sh, mem[..]), i - StartingIndex(g.pass, g.slice);
    PlaceIsValid(g, rows, done);
    var pos := Position(g.pass, g.slice, i);
    RowsAt(g.sh, s, lane, Predecessor(g.sh, Offset(g.sh, pos)));
    RowsAt(g.sh, s, lane, Offset(g.sh, pos));
    var rand: u64 := if DataIndependent(g.kind, g.pass, g.slice) then pseudoRands[i] else mem[prevOffset].v[0];
    var refLane: nat := rand / TWO32 % g.sh.lanes;
    if g.pass == 0 && g.slice == 0 { refLane := lane; }
    var refIndex := IndexAlpha(g.sh, pos, rand % TWO32, refLane == lane);
    RowsAt(g.sh, s, refLane, refIndex);
    var prevBlock, refBlock := mem[prevOffset], mem[Flat(g.sh, refLane, refIndex)];
    var next :=
      if g.pass != 0 then g.x.fillXor(prevBlock, refBlock, mem[currOffset]) else g.x.fill(prevBlock, refBlock);
    RowsUpdate(g.sh, s, lane, Offset(g.sh, pos), next);
    mem[currOffset] := next;
    assert mem[..] == s[currOffset := next];
  }

  /** `argon2_fill_segment_ref`: the running offsets visit the lane's blocks of the slice in order. */
  method FillSegment(g: Stage, lane: nat, mem: array<Block>, pseudoRands: array<u64>)
    requires Fits(g.sh) && g.slice < 4 && lane < g.sh.lanes && IsFlat(g.sh, mem[..])
    requires pseudoRands.Length == g.sh.segment
    modifies mem, pseudoRands
    ensures Ready(g, Rows(g.sh, old(mem[..])))
    ensures Rows(g.sh, mem[..]) == Alone(g, Rows(g.sh, old(mem[..])), lane, Quota(g))
    ensures DataIndependent(g.kind, g.pass, g.slice) ==> pseudoRands[..] == Addresses(g, lane)
  {
    hide Flat, FillOne, Rows, Addresses;
    ghost var was := Rows(g.sh, mem[..]);
    var independent := DataIndependent(g.kind, g.pass, g.slice);
    if independent { GenerateAddresses(g, lane, pseudoRands); }
    ghost var start := SliceStart(g.sh, g.slice);
    var startingIndex := if g.pass == 0 && g.slice == 0 then 2 else 0;
    var laneLength := 4 * g.sh.segment;
    var currOffset := FirstOffset(g, lane, startingIndex);
    FlatOffset(g.sh, lane, start + startingIndex);
    var prevOffset := if currOffset % laneLength == 0 then currOffset + laneLength - 1 else currOffset - 1;
    FlatNext(g.sh, lane, 0, laneLength - 1);
    FlatNext(g.sh, lane, start + startingIndex - if start + startingIndex == 0 then 0 else 1, 1);
    var i := startingIndex;
    while i < g.sh.segment
      invariant startingIndex <= i <= g.sh.segment
      invariant currOffset == Flat(g.sh, lane, start + i)
      invariant start + i != 1 && start + i < laneLength ==>
        prevOffset == Flat(g.sh, lane, Predecessor(g.sh, start + i))
      invariant Rows(g.sh, mem[..]) == Alone(g, was, lane, i - startingIndex)
      invariant independent ==> pseudoRands[..] == Addresses(g, lane)
    {
      FlatOffset(g.sh, lane, start + i);
      FlatNext(g.sh, lane, 0, 1);
      if currOffset % laneLength == 1 { prevOffset := currOffset - 1; }
      FillBlock(g, lane, i, currOffset, prevOffset, mem, pseudoRands);
      FlatNext(g.sh, lane, start + i, 1);
      FlatNext(g.sh, lane, Predecessor(g.sh, start + i), 1);
      i, currOffset, prevOffset := i + 1, currOffset + 1, prevOffset + 1;
    }
  }

  /** `lane * lane_length + slice * segment_length + starting_index`. */
  function FirstOffset(g: Stage, lane: nat, startingIndex: nat): (r: nat)
    requires g.slice < 4
    ensures r == Flat(g.sh, lane, SliceStart(g.sh, g.slice) + startingIndex)
  {
    SliceProduct(g.sh, g.slice);
    lane * LaneLength(g.sh) + g.slice * g.sh.segment + startingIndex
  }

  /** The first `n` lanes have had all their turns, the others none. */
  function Sofar(g: Stage, n: nat): seq<nat> {
    seq(g.sh.lanes, l requires 0 <= l < g.sh.lanes => SofarOf(g, n, l))
  }

  function SofarOf(g: Stage, n: nat, l: nat): nat {
    if l < n then Quota(g) else 0
  }

  /** Running the segment of the next lane on the shared memory is as good as running it alone. */
  lemma NextLane(g: Stage, mem: Memory, a: Memory, n: nat)
    requires Ready(g, mem) && n < g.sh.lanes && IsMerge(g, mem, Sofar(g, n), a)
    ensures Ready(g, a) && IsMerge(g, mem, Sofar(g, n + 1), Alone(g, a, n, Quota(g)))
  {
    hide SameOutside, Quota, FillOne;
    MergeLooksAlone(g, mem, Sofar(g, n), a, n);
    AloneSees(g, a, mem, n, Quota(g));
    AloneMoves(g, a, n, Quota(g));
  }

  lemma AllLanes(g: Stage, mem: Memory, a: Memory)
    requires Ready(g, mem) && IsMerge(g, mem, Sofar(g, g.sh.lanes), a)
    ensures a == SliceDone(g, mem)
  {
    hide Alone, Quota;
  }

  method FillSlice(g: Stage, mem: array<Block>, pseudoRands: array<u64>)
    requires Fits(g.sh) && g.slice < 4 && IsFlat(g.sh, mem[..]) && pseudoRands.Length == g.sh.segment
    modifies mem, pseudoRands
    ensures Ready(g, Rows(g.sh, old(mem[..])))
    ensures Rows(g.sh, mem[..]) == SliceDone(g, Rows(g.sh, old(mem[..])))
  {
    hide Rows, IsMerge, Alone, SliceDone, Sofar;
    ghost var was := Rows(g.sh, mem[..]);
    SofarNone(g, was);
    for lane := 0 to g.sh.lanes
      invariant IsMerge(g, was, Sofar(g, lane), Rows(g.sh, mem[..]))
    {
      NextLane(g, was, Rows(g.sh, mem[..]), lane);
      FillSegment(g, lane, mem, pseudoRands);
    }
    AllLanes(g, was, Rows(g.sh, mem[..]));
  }

  lemma SofarNone(g: Stage, mem: Memory)
    requires Ready(g, mem)
    ensures IsMerge(g, mem, Sofar(g, 0), mem)
  {
    NothingDone(g, mem, Sofar(g, 0));
  }

  /** `argon2_fill_memory_blocks`. */
  method FillMemoryBlocks(job: Job, pass: nat, mem: array<Block>, pseudoRands: array<u64>, ghost start: Memory)
    requires Fits(job.sh) && IsFlat(job.sh, mem[..]) && pseudoRands.Length == job.sh.segment
    requires HasShape(job.sh, start) && Rows(job.sh, mem[..]) == Filled(job, start, 4 * pass)
    modifies mem, pseudoRands
    ensures Rows(job.sh, mem[..]) == Filled(job, start, 4 * pass + 4)
  {
    hide Rows, SliceDone;
    for slice := 0 to SYNC_POINTS
      invariant Rows(job.sh, mem[..]) == Filled(job, start, 4 * pass + slice)
    {
      var g := Stage(job.sh, job.kind, job.x, job.passes, pass, slice);
      assert StageAt(job, 4 * pass + slice) == g;
      FillSlice(g, mem, pseudoRands);
    }
  }

  /** The pass loop of `argon2_ctx`. */
  method FillMemory(job: Job, mem: array<Block>)
    requires Fits(job.sh) && IsFlat(job.sh, mem[..])
    modifies mem
    ensures Rows(job.sh, mem[..]) == Filled(job, Rows(job.sh, old(mem[..])), 4 * job.passes)
  {
    hide Rows, Filled;
    var pseudoRands := new u64[job.sh.segment];
    ghost var was := Rows(job.sh, mem[..]);
    FilledNone(job, was);
    for pass := 0 to job.passes
      invariant Rows(job.sh, mem[..]) == Filled(job, was, 4 * pass)
    {
      FillMemoryBlocks(job, pass, mem, pseudoRands, was);
    }
  }

  lemma FilledNone(job: Job, mem: Memory)
    requires Fits(job.sh) && HasShape(job.sh, mem)
    ensures Filled(job, mem, 0) == mem
  {}

  // ---- sizing ----

  /** Memory is rounded down to equal segments: what the validated costs ask for always fits, with
      at least two blocks in every segment, and no 32-bit product wraps. */
  function Sizing(memoryCost: u32, lanes: u32): (sh: Shape)
    requires 1 <= lanes <= MAX_LANES
    ensures Fits(sh) && sh.lanes == lanes
    ensures sh.lanes * LaneLength(sh) < TWO32
    ensures memoryCost >= 8 * lanes ==> memoryCost - 4 * lanes < sh.lanes * LaneLength(sh) <= memoryCost
    ensures memoryCost < 8 * lanes ==> sh.lanes * LaneLength(sh) == 8 * lanes
  {
    var blocks: u32 := if memoryCost < 2 * SYNC_POINTS * lanes then 2 * SYNC_POINTS * lanes else memoryCost;
    var d: nat := lanes * SYNC_POINTS;
    EqualSegments(blocks, lanes, d);
    Shape(lanes, blocks / d)
  }

  lemma EqualSegments(blocks: nat, lanes: nat, d: nat)
    requires lanes > 0 && d == lanes * SYNC_POINTS && blocks >= 2 * d
    ensures
      var total := lanes * (4 * (blocks / d));
      blocks - d < total <= blocks && (blocks == 2 * d ==> total == blocks)
    ensures blocks / d >= 2 && 4 * (blocks / d) <= blocks
  {
    var q, r := blocks / d, blocks % d;
    assert blocks == d * q + r;
    assert lanes * (4 * q) == d * q;
    if q < 2 { ProductGap(d, q, 2); }
    if lanes > 1 { ProductGap(4 * q, 1, lanes); }
    if blocks == 2 * d { EuclidUnique(d, q, r, 2, 0); }
  }
}
