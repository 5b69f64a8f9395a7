/** Running the lanes of a slice at the same time.  The memory is shared, and so is the one buffer
    that a lane fills with its address words before it fills its blocks: block by block, the lanes
    can be interleaved exactly as far as that buffer allows. */
module Argon2Schedule {
  import opened Words
  import opened Errors
  import opened Argon2

  /** What a lane does next: put its address words into the buffer, or fill one block. */
  datatype Turn = Generate(lane: nat) | Fill(lane: nat)

  datatype World = World(mem: Memory, rands: seq<u64>)

  predicate Set(g: Stage, w: World) {
    Ready(g, w.mem) && |w.rands| == g.sh.segment
  }

  predicate Independent(g: Stage) {
    DataIndependent(g.kind, g.pass, g.slice)
  }

  // ---- schedules ----

  function Fills(sched: seq<Turn>, n: nat, lane: nat): nat
    requires n <= |sched|
  {
    if n == 0 then 0 else Fills(sched, n - 1, lane) + if sched[n - 1] == Fill(lane) then 1 else 0
  }

  function Generations(sched: seq<Turn>, n: nat, lane: nat): nat
    requires n <= |sched|
  {
    if n == 0 then 0 else Generations(sched, n - 1, lane) + if sched[n - 1] == Generate(lane) then 1 else 0
  }

  /** Each lane runs its segment once, in program order: in a data-independent slice it generates its
      words once, before its first block; then it fills its blocks. */
  ghost predicate Proper(g: Stage, sched: seq<Turn>) {
    && (forall i | 0 <= i < |sched| :: sched[i].lane < g.sh.lanes)
    && (forall l | 0 <= l < g.sh.lanes :: Fills(sched, |sched|, l) == Quota(g))
    && (forall l | 0 <= l < g.sh.lanes :: Generations(sched, |sched|, l) == if Independent(g) then 1 else 0)
    && (forall i | 0 <= i < |sched| && sched[i].Fill? && Independent(g) :: Generations(sched, i, sched[i].lane) == 1)
  }

  lemma {:induction false} FillsMonotone(sched: seq<Turn>, n: nat, m: nat, lane: nat)
    requires n <= m <= |sched|
    ensures Fills(sched, n, lane) <= Fills(sched, m, lane)
    decreases m
  {
    if n < m { FillsMonotone(sched, n, m - 1, lane); }
  }

  lemma TurnInQuota(g: Stage, sched: seq<Turn>, n: nat)
    requires Proper(g, sched) && n < |sched|
    ensures sched[n].lane < g.sh.lanes
    ensures sched[n].Fill? ==> Fills(sched, n, sched[n].lane) < Quota(g)
  {
    FillsMonotone(sched, n + 1, |sched|, sched[n].lane);
  }

  // ---- running a schedule ----

  /** The word a block is filled with: whatever the buffer holds at that moment, in a
      data-independent slice. */
  function WordAt(g: Stage, w: World, lane: nat, done: nat): u64
    requires Set(g, w) && lane < g.sh.lanes && done < Quota(g)
  {
    if Independent(g) then w.rands[Place(g, done).index] else PreviousWord(g, w.mem, lane, done)
  }

  function Take(g: Stage, w: World, turn: Turn, done: nat): (w': World)
    requires Set(g, w) && turn.lane < g.sh.lanes && (turn.Fill? ==> done < Quota(g))
    ensures Set(g, w')
  {
    match turn
    case Generate(lane) => w.(rands := Addresses(g, lane))
    case Fill(lane) => w.(mem := FillWith(g, w.mem, lane, done, WordAt(g, w, lane, done)))
  }

  /** The world after the first `n` turns. */
  ghost function After(g: Stage, w: World, sched: seq<Turn>, n: nat): (w': World)
    requires Set(g, w) && Proper(g, sched) && n <= |sched|
    ensures Set(g, w')
  {
    if n == 0 then w
    else
      TurnInQuota(g, sched, n - 1);
      Take(g, After(g, w, sched, n - 1), sched[n - 1], Fills(sched, n - 1, sched[n - 1].lane))
  }

  // ---- when the buffer does no harm ----

  /** Whose words the buffer holds after `n` turns. */
  function Owner(sched: seq<Turn>, n: nat): Option<nat>
    requires n <= |sched|
  {
    if n == 0 then None
    else if sched[n - 1].Generate? then Some(sched[n - 1].lane)
    else Owner(sched, n - 1)
  }

  /** The first block of all has only one block to refer to, whatever its word. */
  predicate OneChoice(g: Stage, done: nat) {
    g.pass == 0 && g.slice == 0 && done == 0
  }

  predicate OwnWords(g: Stage, sched: seq<Turn>, n: nat)
    requires n < |sched|
  {
    || !Independent(g)
    || Owner(sched, n) == Some(sched[n].lane)
    || OneChoice(g, Fills(sched, n, sched[n].lane))
  }

  /** No lane generates its words while another still has blocks to fill from its own; a lane's very
      first block excepted. */
  ghost predicate Undisturbed(g: Stage, sched: seq<Turn>) {
    forall n | 0 <= n < |sched| && sched[n].Fill? :: OwnWords(g, sched, n)
  }

  function FillCounts(lanes: nat, sched: seq<Turn>, n: nat): seq<nat>
    requires n <= |sched|
  {
    seq(lanes, l requires 0 <= l < lanes => Fills(sched, n, l))
  }

  lemma OneChoiceSame(g: Stage, mem: Memory, lane: nat, rand: u64, rand': u64)
    requires Ready(g, mem) && lane < g.sh.lanes && OneChoice(g, 0) && 0 < Quota(g)
    ensures NewBlock(g, mem, lane, 0, rand) == NewBlock(g, mem, lane, 0, rand')
  {
    hide Relative, AreaSize, IndexAlpha;
    PlaceIsValid(g, mem, 0);
    AreaIs(g.sh, Place(g, 0), true);
    RelativeInArea(1, rand % TWO32);
    RelativeInArea(1, rand' % TWO32);
    IndexIs(g.sh, Place(g, 0), rand % TWO32, true);
    IndexIs(g.sh, Place(g, 0), rand' % TWO32, true);
  }

  /** A block filled with the right word, or where the word is no matter, is the block meant. */
  lemma RightWord(g: Stage, w: World, sched: seq<Turn>, n: nat)
    requires Set(g, w) && Proper(g, sched) && n < |sched| && sched[n].Fill? && OwnWords(g, sched, n)
    requires Independent(g) && Owner(sched, n).Some? ==> w.rands == Addresses(g, Owner(sched, n).value)
    ensures var lane, done := sched[n].lane, Fills(sched, n, sched[n].lane);
      && lane < g.sh.lanes && done < Quota(g)
      && FillWith(g, w.mem, lane, done, WordAt(g, w, lane, done)) == FillOne(g, w.mem, lane, done)
  {
    hide Proper, NewBlock, Address, PreviousWord;
    TurnInQuota(g, sched, n);
    var lane, done := sched[n].lane, Fills(sched, n, sched[n].lane);
    PlaceIsValid(g, w.mem, done);
    if OneChoice(g, done) {
      OneChoiceSame(g, w.mem, lane, WordAt(g, w, lane, done), RandomWord(g, w.mem, lane, done));
    }
  }

  /** As long as every block so far had its own words, each lane is as if it had worked alone. */
  lemma {:induction false} AfterIsMerge(g: Stage, w: World, sched: seq<Turn>, n: nat)
    requires Set(g, w) && Proper(g, sched) && n <= |sched|
    requires forall m | 0 <= m < n && sched[m].Fill? :: OwnWords(g, sched, m)
    ensures IsMerge(g, w.mem, FillCounts(g.sh.lanes, sched, n), After(g, w, sched, n).mem)
    ensures Owner(sched, n).Some? ==> After(g, w, sched, n).rands == Addresses(g, Owner(sched, n).value)
    decreases n
  {
    hide FillOne, FillWith, WordAt, Proper, IsMerge, Quota, OwnWords, Addresses;
    if n == 0 {
      NothingDone(g, w.mem, FillCounts(g.sh.lanes, sched, 0));
    } else {
      AfterIsMerge(g, w, sched, n - 1);
      TurnInQuota(g, sched, n - 1);
      var lane, turns, before := sched[n - 1].lane, FillCounts(g.sh.lanes, sched, n - 1), After(g, w, sched, n - 1);
      if sched[n - 1].Fill? {
        RightWord(g, before, sched, n - 1);
        OneTurn(g, w.mem, turns, before.mem, lane);
        assert FillCounts(g.sh.lanes, sched, n) == turns[lane := turns[lane] + 1];
      } else {
        assert FillCounts(g.sh.lanes, sched, n) == turns;
      }
    }
  }

  lemma AllFilled(g: Stage, mem: Memory, sched: seq<Turn>, mem': Memory)
    requires Ready(g, mem) && Proper(g, sched) && IsMerge(g, mem, FillCounts(g.sh.lanes, sched, |sched|), mem')
    ensures mem' == SliceDone(g, mem)
  {
    hide Alone, Quota;
  }

  /** Every undisturbed interleaving of a slice leaves the same memory; in a data-dependent slice
      that is every interleaving. */
  lemma ScheduleIndependent(g: Stage, w: World, sched: seq<Turn>)
    requires Set(g, w) && Proper(g, sched) && Undisturbed(g, sched)
    ensures After(g, w, sched, |sched|).mem == SliceDone(g, w.mem)
  {
    hide After, SliceDone, IsMerge, Proper;
    AfterIsMerge(g, w, sched, |sched|);
    AllFilled(g, w.mem, sched, After(g, w, sched, |sched|).mem);
  }

  // ---- when it does: mixers that tell ----

  function Const(y: u64): Block {
    Block(seq(WORDS, i => y))
  }

  /** Blocks count up along a lane and remember what they referred to. */
  function CountUp(prev: Block, ref: Block): Block {
    Block([Wrap64(prev.v[0] as int + 1), ref.v[0]] + ZeroWords()[2..])
  }

  function Tell(l: u64, mine: u64, theirs: u64, ref: Block): Block {
    Const(if ref.v[1] == l || ref.v[1] == mine then mine else theirs)
  }

  /** Address words are `mine` for lane `l` and `theirs` for all others. */
  function Telling(l: u64, mine: u64, theirs: u64): Mixer {
    Mixer((prev, ref) => CountUp(prev, ref), (prev, ref, was) => Tell(l, mine, theirs, ref))
  }

  /** A stage with that mixer, for words that are not lane numbers. */
  ghost predicate Tells(g: Stage, l: nat, mine: u64, theirs: u64) {
    && Fits(g.sh) && g.slice < 4 && l < g.sh.lanes && g.x == Telling(l, mine, theirs)
    && mine != theirs && mine > MAX_LANES && theirs > MAX_LANES
  }

  lemma TellingAddress(g: Stage, l: nat, mine: u64, theirs: u64, lane: nat, i: nat)
    requires Tells(g, l, mine, theirs) && lane < g.sh.lanes
    ensures Address(g, lane, i) == if lane == l then mine else theirs
  {
    var input := InputBlock(g, lane, i / WORDS + 1);
    assert input.v[1] == lane;
    var inner := g.x.fillXor(ZeroBlock(), input, ZeroBlock());
    assert inner == Const(if lane == l then mine else theirs);
    assert AddressBlock(g, lane, i / WORDS + 1) == Tell(l, mine, theirs, inner);
  }

  /** The least word refers furthest ahead in the area, the greatest to its first or second block. */
  lemma RelativeAtEnds(area: u32)
    requires area > 0
    ensures Relative(area, 0) == area - 1
    ensures Relative(area, TWO32 - 1) <= 1 && (area <= TWO32 / 2 ==> Relative(area, TWO32 - 1) == 0)
  {
    NoWrap(area - 1);
    assert (TWO32 - 1) * (TWO32 - 1) / TWO32 == TWO32 - 2;
    var y: int := area * (TWO32 - 2);
    var short := if area <= TWO32 / 2 then 1 else 2;
    assert y == TWO32 * (area - short) + (TWO32 * short - 2 * area);
    ModUnique(y, TWO32, area - short, TWO32 * short - 2 * area);
    NoWrap(y);
    NoWrap(0);
    NoWrap(1);
  }

  // ---- the first slice: the word decides how far back a block refers ----

  function Numbered(sh: Shape): (mem: Memory)
    ensures HasShape(sh, mem)
  {
    seq(sh.lanes, l => seq(LaneLength(sh), o requires 0 <= o < LaneLength(sh) => Const(Wrap64(o))))
  }

  ghost predicate IsNumbered(sh: Shape, mem: Memory, lane: nat) {
    lane < |mem| && |mem[lane]| == LaneLength(sh) && forall o | 0 <= o < LaneLength(sh) :: mem[lane][o].v[0] == o
  }

  lemma NextIsNumbered(g: Stage, mem: Memory, l: nat, mine: u64, theirs: u64, done: nat)
    requires Tells(g, l, mine, theirs) && g.pass == 0 && Ready(g, mem) && done < Quota(g) && IsNumbered(g.sh, mem, l)
    ensures IsNumbered(g.sh, FillOne(g, mem, l, done), l)
  {
    hide RandomWord, IndexAlpha, Quota, Place;
    PlaceIsValid(g, mem, done);
    BehindStart(g, mem, done);
    NoWrap(Offset(g.sh, Place(g, done)));
    assert NewBlock(g, mem, l, done, RandomWord(g, mem, l, done)).v[0] == Wrap64(Offset(g.sh, Place(g, done)));
  }

  lemma {:induction false} StaysNumbered(g: Stage, l: nat, mine: u64, theirs: u64, n: nat)
    requires Tells(g, l, mine, theirs) && g.pass == 0 && n <= Quota(g)
    ensures Ready(g, Numbered(g.sh)) && IsNumbered(g.sh, Alone(g, Numbered(g.sh), l, n), l)
    decreases n
  {
    hide FillOne, Quota, Telling;
    if n > 0 {
      StaysNumbered(g, l, mine, theirs, n - 1);
      NextIsNumbered(g, Alone(g, Numbered(g.sh), l, n - 1), l, mine, theirs, n - 1);
    }
  }

  lemma FirstSliceTells(g: Stage, l: nat, done: nat)
    requires Tells(g, l, TWO32 - 1, 2 * TWO32) && g.pass == 0 && g.slice == 0 && 0 < done < Quota(g)
    ensures Ready(g, Numbered(g.sh))
    ensures var b := Alone(g, Numbered(g.sh), l, done);
      NewBlock(g, b, l, done, 2 * TWO32) != NewBlock(g, b, l, done, TWO32 - 1)
  {
    hide Relative, AreaSize, IndexAlpha, Alone, IsNumbered;
    StaysNumbered(g, l, TWO32 - 1, 2 * TWO32, done);
    var b, pos := Alone(g, Numbered(g.sh), l, done), Place(g, done);
    PlaceIsValid(g, b, done);
    AreaIs(g.sh, pos, true);
    RelativeAtEnds(AreaSize(g.sh, pos, true));
    IndexIs(g.sh, pos, 0, true);
    IndexIs(g.sh, pos, TWO32 - 1, true);
    var near, far := IndexAlpha(g.sh, pos, 0, true), IndexAlpha(g.sh, pos, TWO32 - 1, true);
    assert near != far;
    NumbersDiffer(g.sh, b, l, near, far);
    ReferTo(g, b, l, done, 2 * TWO32, near);
    ReferTo(g, b, l, done, TWO32 - 1, far);
  }

  lemma NumbersDiffer(sh: Shape, mem: Memory, lane: nat, o: nat, o': nat)
    requires IsNumbered(sh, mem, lane) && o < LaneLength(sh) && o' < LaneLength(sh) && o != o'
    ensures mem[lane][o].v[0] != mem[lane][o'].v[0]
  {}

  /** In the first pass the second word of a new block is the first word of the block referred to. */
  lemma ReferTo(g: Stage, mem: Memory, lane: nat, done: nat, rand: u64, o: nat)
    requires Ready(g, mem) && lane < g.sh.lanes && done < Quota(g) && g.pass == 0
    requires forall p, r :: g.x.fill(p, r) == CountUp(p, r)
    requires var refLane := RefLane(g, rand, lane); o == IndexAlpha(g.sh, Place(g, done), rand % TWO32, refLane == lane)
    ensures o < LaneLength(g.sh) && NewBlock(g, mem, lane, done, rand).v[1] == mem[RefLane(g, rand, lane)][o].v[0]
  {
    hide IndexAlpha;
    PlaceIsValid(g, mem, done);
  }

  // ---- later slices: the word decides which lane a block refers to ----

  function Labelled(sh: Shape): (mem: Memory)
    ensures HasShape(sh, mem)
  {
    seq(sh.lanes, l requires 0 <= l < sh.lanes => seq(LaneLength(sh), o => Const(Wrap64(l))))
  }

  /** A word that refers to `lane`, near the start of the area. */
  function WordFor(lane: nat): u64
    requires lane <= MAX_LANES
  {
    lane * TWO32 + TWO32 - 1
  }

  lemma WordForSplits(lane: nat)
    requires lane <= MAX_LANES
    ensures WordFor(lane) / TWO32 == lane && WordFor(lane) % TWO32 == TWO32 - 1 && WordFor(lane) > MAX_LANES
  {}

  /** Near the start of the area is outside the slice. */
  lemma StartIsOutside(g: Stage, done: nat, sameLane: bool)
    requires Fits(g.sh) && g.slice < 4 && done < Quota(g) && !(g.pass == 0 && g.slice == 0)
    ensures var o := IndexAlpha(g.sh, Place(g, done), TWO32 - 1, sameLane); !InSlice(g.sh, g.slice, o)
  {
    hide Relative, AreaSize, IndexAlpha;
    var pos := Place(g, done);
    AreaIs(g.sh, pos, sameLane);
    RelativeAtEnds(AreaSize(g.sh, pos, sameLane));
    IndexIs(g.sh, pos, TWO32 - 1, sameLane);
  }

  lemma LaterReference(g: Stage, b: Memory, l: nat, done: nat, lane: nat)
    requires Ready(g, b) && l < g.sh.lanes && lane < g.sh.lanes && done < Quota(g) && !(g.pass == 0 && g.slice == 0)
    requires forall j | 0 <= j < g.sh.lanes :: SameOutside(g, b[j], Labelled(g.sh)[j])
    ensures RefLane(g, WordFor(lane), l) == lane
    ensures var o := IndexAlpha(g.sh, Place(g, done), TWO32 - 1, lane == l); b[lane][o] == Const(lane)
  {
    hide IndexAlpha, InSlice;
    WordForSplits(lane);
    ModUnique(lane, g.sh.lanes, 0, lane);
    StartIsOutside(g, done, lane == l);
    var o := IndexAlpha(g.sh, Place(g, done), TWO32 - 1, lane == l);
    assert SameOutside(g, b[lane], Labelled(g.sh)[lane]);
    assert Labelled(g.sh)[lane][o] == Const(lane);
  }

  lemma LaterSliceTells(g: Stage, l: nat, owner: nat, done: nat)
    requires l < g.sh.lanes && owner < g.sh.lanes <= MAX_LANES && l != owner
    requires Tells(g, l, WordFor(l), WordFor(owner)) && done < Quota(g) && !(g.pass == 0 && g.slice == 0)
    ensures Ready(g, Labelled(g.sh))
    ensures var b := Alone(g, Labelled(g.sh), l, done);
      NewBlock(g, b, l, done, WordFor(owner)) != NewBlock(g, b, l, done, WordFor(l))
  {
    hide IndexAlpha, SameOutside, WordFor;
    var mem := Labelled(g.sh);
    AloneMoves(g, mem, l, done);
    var b := Alone(g, mem, l, done);
    forall j | 0 <= j < g.sh.lanes ensures SameOutside(g, b[j], mem[j]) { SameOutsideLaws(g, mem[j], b[j], b[j]); }
    LaterReference(g, b, l, done, l);
    LaterReference(g, b, l, done, owner);
    WordForSplits(l);
    WordForSplits(owner);
    PlaceIsValid(g, b, done);
    assert Const(l).v[0] == Const(l).v[1] == l && Const(owner).v[0] == Const(owner).v[1] == owner;
    if g.pass == 0 {
      ReferTo(g, b, l, done, WordFor(l), IndexAlpha(g.sh, Place(g, done), TWO32 - 1, true));
      ReferTo(g, b, l, done, WordFor(owner), IndexAlpha(g.sh, Place(g, done), TWO32 - 1, false));
    } else {
      assert NewBlock(g, b, l, done, WordFor(l)).v[0] == WordFor(l);
      assert NewBlock(g, b, l, done, WordFor(owner)).v[0] == WordFor(owner);
    }
  }

  // ---- the exact condition ----

  /** A mixer and a memory for which the words of `owner` in place of its own change block `done` of
      lane `l`. */
  lemma WordsMatter(g: Stage, l: nat, owner: nat, done: nat) returns (x: Mixer, mem: Memory)
    requires Fits(g.sh) && g.slice < 4 && l < g.sh.lanes && owner < g.sh.lanes && l != owner
    requires done < Quota(g) && !OneChoice(g, done)
    ensures var h, i := g.(x := x), Place(g, done).index;
      && Ready(h, mem) && done < Quota(h)
      && var b := Alone(h, mem, l, done);
      NewBlock(h, b, l, done, Address(h, owner, i)) != NewBlock(h, b, l, done, Address(h, l, i))
  {
    hide NewBlock, Address, Telling, Alone;
    if g.pass == 0 && g.slice == 0 {
      x, mem := Telling(l, TWO32 - 1, 2 * TWO32), Numbered(g.sh);
      var h, i := g.(x := x), Place(g, done).index;
      FirstSliceTells(h, l, done);
      TellingAddress(h, l, TWO32 - 1, 2 * TWO32, l, i);
      TellingAddress(h, l, TWO32 - 1, 2 * TWO32, owner, i);
    } else {
      WordForSplits(l);
      WordForSplits(owner);
      x, mem := Telling(l, WordFor(l), WordFor(owner)), Labelled(g.sh);
      var h, i := g.(x := x), Place(g, done).index;
      LaterSliceTells(h, l, owner, done);
      TellingAddress(h, l, WordFor(l), WordFor(owner), l, i);
      TellingAddress(h, l, WordFor(l), WordFor(owner), owner, i);
    }
  }

  /** A block once filled is not touched again. */
  lemma {:induction false} FilledStays(g: Stage, w: World, sched: seq<Turn>, n: nat, m: nat, lane: nat, done: nat)
    requires Set(g, w) && Proper(g, sched) && n <= m <= |sched| && lane < g.sh.lanes
    requires done < Fills(sched, n, lane) && done < Quota(g)
    ensures var o := Offset(g.sh, Place(g, done));
      && o < LaneLength(g.sh)
      && After(g, w, sched, m).mem[lane][o] == After(g, w, sched, n).mem[lane][o]
    decreases m
  {
    hide Proper, NewBlock, WordAt, Quota;
    PlaceIsValid(g, w.mem, done);
    if n < m {
      FilledStays(g, w, sched, n, m - 1, lane, done);
      TurnInQuota(g, sched, m - 1);
      FillsMonotone(sched, n, m - 1, lane);
      if sched[m - 1].Fill? { PlaceIsValid(g, w.mem, Fills(sched, m - 1, sched[m - 1].lane)); }
    }
  }

  lemma {:induction false} AloneStays(g: Stage, mem: Memory, lane: nat, n: nat, done: nat)
    requires Ready(g, mem) && lane < g.sh.lanes && done < n <= Quota(g)
    ensures var o := Offset(g.sh, Place(g, done));
      && o < LaneLength(g.sh)
      && Alone(g, mem, lane, n)[lane][o]
         == NewBlock(g, Alone(g, mem, lane, done), lane, done, RandomWord(g, Alone(g, mem, lane, done), lane, done))
    decreases n
  {
    hide NewBlock, RandomWord;
    PlaceIsValid(g, mem, done);
    if done < n - 1 { AloneStays(g, mem, lane, n - 1, done); }
  }

  /** The buffer at the first block that does not find its own words holds another lane's. */
  lemma OtherOwner(g: Stage, sched: seq<Turn>, n: nat)
    requires Proper(g, sched) && n < |sched| && sched[n].Fill? && !OwnWords(g, sched, n)
    ensures Owner(sched, n).Some? && Owner(sched, n).value != sched[n].lane && Owner(sched, n).value < g.sh.lanes
  {
    OwnerExists(g, sched, n, sched[n].lane);
  }

  lemma {:induction false} OwnerExists(g: Stage, sched: seq<Turn>, n: nat, lane: nat)
    requires Proper(g, sched) && n <= |sched|
    ensures Generations(sched, n, lane) > 0 ==> Owner(sched, n).Some?
    ensures Owner(sched, n).Some? ==> Owner(sched, n).value < g.sh.lanes
    decreases n
  {
    hide Fills, Quota;
    if n > 0 { OwnerExists(g, sched, n - 1, lane); }
  }

  /** Being proper and undisturbed is a matter of turns, not of the mixer. */
  lemma SameForAll(g: Stage, x: Mixer, sched: seq<Turn>)
    ensures Proper(g.(x := x), sched) <==> Proper(g, sched)
    ensures Undisturbed(g.(x := x), sched) <==> Undisturbed(g, sched)
    ensures Quota(g.(x := x)) == Quota(g)
  {
    var h := g.(x := x);
    assert forall n | 0 <= n < |sched| :: OwnWords(h, sched, n) == OwnWords(g, sched, n);
  }

  /** The first block filled from another lane's words comes out wrong for the mixer of
      `WordsMatter`, and stays wrong. */
  lemma DisturbedDiffers(g: Stage, sched: seq<Turn>, n: nat, rands: seq<u64>) returns (x: Mixer, mem: Memory)
    requires Fits(g.sh) && g.slice < 4 && Proper(g, sched) && |rands| == g.sh.segment
    requires n < |sched| && sched[n].Fill? && !OwnWords(g, sched, n)
    requires forall m | 0 <= m < n && sched[m].Fill? :: OwnWords(g, sched, m)
    ensures var h := g.(x := x);
      && Set(h, World(mem, rands)) && Proper(h, sched)
      && After(h, World(mem, rands), sched, |sched|).mem != SliceDone(h, mem)
  {
    hide NewBlock, Address, Alone, After, IsMerge, Quota, Proper, LooksSame, RandomWord;
    var lane, done := sched[n].lane, Fills(sched, n, sched[n].lane);
    TurnInQuota(g, sched, n);
    OtherOwner(g, sched, n);
    var owner := Owner(sched, n).value;
    x, mem := WordsMatter(g, lane, owner, done);
    SameForAll(g, x, sched);
    var h, w := g.(x := x), World(mem, rands);
    WrongBlock(h, w, sched, n, lane, owner, done);
  }

  lemma WrongBlock(g: Stage, w: World, sched: seq<Turn>, n: nat, lane: nat, owner: nat, done: nat)
    requires Set(g, w) && Proper(g, sched) && Independent(g)
    requires n < |sched| && sched[n] == Fill(lane) && lane < g.sh.lanes && done == Fills(sched, n, lane) < Quota(g)
    requires Owner(sched, n) == Some(owner) && forall m | 0 <= m < n && sched[m].Fill? :: OwnWords(g, sched, m)
    requires var b, i := Alone(g, w.mem, lane, done), Place(g, done).index;
      NewBlock(g, b, lane, done, Address(g, owner, i)) != NewBlock(g, b, lane, done, Address(g, lane, i))
    ensures After(g, w, sched, |sched|).mem != SliceDone(g, w.mem)
  {
    hide NewBlock, Address, Alone, IsMerge, Quota, LooksSame, OwnWords, Proper;
    AfterIsMerge(g, w, sched, n);
    var a, b := After(g, w, sched, n), Alone(g, w.mem, lane, done);
    MergeLooksAlone(g, w.mem, FillCounts(g.sh.lanes, sched, n), a.mem, lane);
    PlaceIsValid(g, w.mem, done);
    FillWithSees(g, a.mem, b, lane, done, Address(g, owner, Place(g, done).index));
    var o := Offset(g.sh, Place(g, done));
    assert After(g, w, sched, n + 1).mem[lane][o] ==
           NewBlock(g, a.mem, lane, done, Address(g, owner, Place(g, done).index));
    FilledStays(g, w, sched, n + 1, |sched|, lane, done);
    AloneStays(g, w.mem, lane, Quota(g), done);
    assert SliceDone(g, w.mem)[lane][o] == NewBlock(g, b, lane, done, Address(g, lane, Place(g, done).index));
  }

  /** The schedule gives the memory meant for every mixer and every start. */
  ghost predicate AlwaysRight(g: Stage, sched: seq<Turn>) {
    forall x: Mixer, w: World :: RightFor(g.(x := x), sched, w)
  }

  ghost predicate RightFor(g: Stage, sched: seq<Turn>, w: World) {
    Set(g, w) && Proper(g, sched) ==> After(g, w, sched, |sched|).mem == SliceDone(g, w.mem)
  }

  /** Interleaving a slice block by block is right for every mixer and every start exactly when it
      is undisturbed. */
  lemma InterleavingIsExact(g: Stage, sched: seq<Turn>)
    requires Fits(g.sh) && g.slice < 4 && Proper(g, sched)
    ensures AlwaysRight(g, sched) <==> Undisturbed(g, sched)
  {
    hide After, SliceDone, Proper, OwnWords;
    if Undisturbed(g, sched) {
      forall x: Mixer, w: World ensures RightFor(g.(x := x), sched, w) {
        SameForAll(g, x, sched);
        if Set(g.(x := x), w) { ScheduleIndependent(g.(x := x), w, sched); }
      }
    } else {
      var n := FirstDisturbed(g, sched, |sched|);
      var rands := seq(g.sh.segment, i => 0);
      var x, mem := DisturbedDiffers(g, sched, n, rands);
      assert !RightFor(g.(x := x), sched, World(mem, rands));
    }
  }

  lemma {:induction false} FirstDisturbed(g: Stage, sched: seq<Turn>, k: nat) returns (n: nat)
    requires k <= |sched| && exists m :: 0 <= m < k && sched[m].Fill? && !OwnWords(g, sched, m)
    ensures n < |sched| && sched[n].Fill? && !OwnWords(g, sched, n)
    ensures forall m | 0 <= m < n && sched[m].Fill? :: OwnWords(g, sched, m)
    decreases k
  {
    hide OwnWords;
    if exists m :: 0 <= m < k - 1 && sched[m].Fill? && !OwnWords(g, sched, m) {
      n := FirstDisturbed(g, sched, k - 1);
    } else {
      n := k - 1;
    }
  }

  // ---- whole segments, in any order of the lanes ----

  lemma {:induction false} CountsConcat(a: seq<Turn>, b: seq<Turn>, n: nat, l: nat)
    requires n <= |a + b|
    ensures n <= |a| ==> Fills(a + b, n, l) == Fills(a, n, l) && Generations(a + b, n, l) == Generations(a, n, l)
    ensures n <= |a| ==> Owner(a + b, n) == Owner(a, n)
    ensures n >= |a| ==> Fills(a + b, n, l) == Fills(a, |a|, l) + Fills(b, n - |a|, l)
    ensures n >= |a| ==> Generations(a + b, n, l) == Generations(a, |a|, l) + Generations(b, n - |a|, l)
    ensures n >= |a| ==>
      Owner(a + b, n) == if Owner(b, n - |a|).Some? then Owner(b, n - |a|) else Owner(a, |a|)
    decreases n
  {
    if n > 0 { CountsConcat(a, b, n - 1, l); }
  }

  /** One run of the segment function. */
  function Segment(g: Stage, lane: nat): seq<Turn> {
    (if Independent(g) then [Generate(lane)] else []) + seq(Quota(g), i => Fill(lane))
  }

  lemma {:induction false} SegmentCounts(g: Stage, lane: nat, n: nat, l: nat)
    requires n <= |Segment(g, lane)|
    ensures var first := if Independent(g) then 1 else 0;
      && Fills(Segment(g, lane), n, l) == (if l == lane && n > first then n - first else 0)
      && Generations(Segment(g, lane), n, l) == (if l == lane && n > 0 then first else 0)
      && Owner(Segment(g, lane), n) == (if n > 0 && Independent(g) then Some(lane) else None)
    decreases n
  {
    hide Quota;
    if n > 0 { SegmentCounts(g, lane, n - 1, l); }
  }

  function Segments(g: Stage, order: seq<nat>): seq<Turn> {
    if order == [] then [] else Segments(g, order[..|order| - 1]) + Segment(g, order[|order| - 1])
  }

  predicate NoRepeats(order: seq<nat>) {
    forall i, j | 0 <= i < j < |order| :: order[i] != order[j]
  }

  /** All lanes, each once. */
  ghost predicate IsOrder(g: Stage, order: seq<nat>) {
    && NoRepeats(order)
    && (forall i | 0 <= i < |order| :: order[i] < g.sh.lanes)
    && (forall l: nat | l < g.sh.lanes :: l in order)
  }

  lemma {:induction false} SegmentsCount(g: Stage, order: seq<nat>, l: nat)
    requires NoRepeats(order)
    ensures var s := Segments(g, order);
      && Fills(s, |s|, l) == (if l in order then Quota(g) else 0)
      && Generations(s, |s|, l) == (if l in order && Independent(g) then 1 else 0)
    decreases |order|
  {
    hide Quota, Independent;
    if order != [] {
      var init, last := order[..|order| - 1], order[|order| - 1];
      assert order == init + [last];
      SegmentsCount(g, init, l);
      SegmentCounts(g, last, |Segment(g, last)|, l);
      CountsConcat(Segments(g, init), Segment(g, last), |Segments(g, order)|, l);
      SegmentLength(g, last);
    }
  }

  lemma SegmentLength(g: Stage, lane: nat)
    ensures |Segment(g, lane)| == Quota(g) + if Independent(g) then 1 else 0
    ensures forall i | 0 <= i < |Segment(g, lane)| :: Segment(g, lane)[i].lane == lane
    ensures forall i | 0 <= i < |Segment(g, lane)| && Segment(g, lane)[i].Fill? && Independent(g) :: i > 0
  {}

  /** Turn `n` finds its own words, generated once. */
  predicate Clean(g: Stage, sched: seq<Turn>, n: nat)
    requires n < |sched|
  {
    sched[n].Fill? && Independent(g) ==>
      Generations(sched, n, sched[n].lane) == 1 && Owner(sched, n) == Some(sched[n].lane)
  }

  lemma {:induction false} SegmentsClean(g: Stage, order: seq<nat>, n: nat)
    requires NoRepeats(order) && n < |Segments(g, order)|
    ensures Segments(g, order)[n].lane in order && Clean(g, Segments(g, order), n)
    decreases |order|
  {
    hide Quota, Independent, Segment;
    var init, last := order[..|order| - 1], order[|order| - 1];
    var a, b := Segments(g, init), Segment(g, last);
    assert order == init + [last];
    if n < |a| {
      SegmentsClean(g, init, n);
      CountsConcat(a, b, n, a[n].lane);
    } else {
      SegmentLength(g, last);
      SegmentsCount(g, init, last);
      SegmentCounts(g, last, n - |a|, last);
      CountsConcat(a, b, n, last);
    }
  }

  lemma SegmentsAreProper(g: Stage, order: seq<nat>)
    requires IsOrder(g, order)
    ensures Proper(g, Segments(g, order)) && Undisturbed(g, Segments(g, order))
  {
    hide Quota, Independent, Segments, Fills, Generations, Owner;
    var s := Segments(g, order);
    forall n | 0 <= n < |s| ensures s[n].lane < g.sh.lanes && Clean(g, s, n) { SegmentsClean(g, order, n); }
    forall l | 0 <= l < g.sh.lanes
      ensures Fills(s, |s|, l) == Quota(g) && Generations(s, |s|, l) == if Independent(g) then 1 else 0
    {
      SegmentsCount(g, order, l);
    }
  }

  /** The lanes of a slice can be run in any order, one segment after the other. */
  lemma SegmentOrder(g: Stage, w: World, order: seq<nat>)
    requires Set(g, w) && IsOrder(g, order)
    ensures Proper(g, Segments(g, order))
    ensures After(g, w, Segments(g, order), |Segments(g, order)|).mem == SliceDone(g, w.mem)
  {
    hide After, SliceDone, Segments, Proper, Undisturbed;
    SegmentsAreProper(g, order);
    ScheduleIndependent(g, w, Segments(g, order));
  }

  // ---- a schedule that fails ----

  /** Two lanes that both generate before either fills. */
  function GenerateFirst(g: Stage): seq<Turn> {
    [Generate(0), Generate(1)] + (seq(Quota(g), i => Fill(0)) + seq(Quota(g), i => Fill(1)))
  }

  lemma {:induction false} RepeatCounts(lane: nat, q: nat, n: nat, l: nat)
    requires n <= q
    ensures var s := seq(q, i => Fill(lane));
      && Fills(s, n, l) == (if l == lane then n else 0) && Generations(s, n, l) == 0 && Owner(s, n) == None
    decreases n
  {
    if n > 0 { RepeatCounts(lane, q, n - 1, l); }
  }

  lemma {:induction false} FillsOnly(q: nat, n: nat, l: nat)
    requires n <= 2 * q
    ensures var s := seq(q, i => Fill(0)) + seq(q, i => Fill(1));
      && Generations(s, n, l) == 0 && Owner(s, n) == None
      && (n == 2 * q ==> Fills(s, n, l) == if l < 2 then q else 0)
      && (n <= q ==> Fills(s, n, l) == if l == 0 then n else 0)
  {
    var a, b := seq(q, i => Fill(0)), seq(q, i => Fill(1));
    CountsConcat(a, b, n, l);
    RepeatCounts(0, q, if n <= q then n else q, l);
    RepeatCounts(0, q, q, l);
    RepeatCounts(1, q, if n <= q then 0 else n - q, l);
  }

  /** It is proper, yet disturbed: lane 0 fills its blocks from lane 1's words. */
  lemma GenerateFirstFails(g: Stage)
    requires Fits(g.sh) && g.slice < 4 && g.sh.lanes == 2 && Independent(g) && Quota(g) >= 2
    ensures Proper(g, GenerateFirst(g)) && !Undisturbed(g, GenerateFirst(g)) && !AlwaysRight(g, GenerateFirst(g))
  {
    hide Quota, Independent, AlwaysRight;
    var s, q := GenerateFirst(g), Quota(g);
    var head, tail := [Generate(0), Generate(1)], seq(q, i => Fill(0)) + seq(q, i => Fill(1));
    forall n, l | 2 <= n <= |s|
      ensures Generations(s, n, l) == Generations(head, 2, l) && Owner(s, n) == Some(1)
      ensures n == |s| ==> Fills(s, n, l) == if l < 2 then q else 0
      ensures n <= 2 + q ==> Fills(s, n, l) == if l == 0 then n - 2 else 0
    {
      CountsConcat(head, tail, n, l);
      FillsOnly(q, n - 2, l);
      HeadCounts(l);
    }
    HeadCounts(0);
    HeadCounts(1);
    assert s[3] == Fill(0) && Fills(s, 3, 0) == 1;
    assert !OwnWords(g, s, 3);
    InterleavingIsExact(g, s);
  }

  lemma HeadCounts(l: nat)
    ensures var head := [Generate(0), Generate(1)];
      Fills(head, 2, l) == 0 && Generations(head, 2, l) == (if l < 2 then 1 else 0) && Owner(head, 2) == Some(1)
  {
    var head := [Generate(0), Generate(1)];
    assert Fills(head, 1, l) == 0 && Generations(head, 1, l) == if l == 0 then 1 else 0;
  }

  // ---- all slices of all passes ----

  /** One schedule for each slice, each proper and undisturbed. */
  ghost predicate AllSound(job: Job, scheds: seq<seq<Turn>>) {
    forall t | 0 <= t < |scheds| :: Proper(StageAt(job, t), scheds[t]) && Undisturbed(StageAt(job, t), scheds[t])
  }

  /** The world after the first `n` slices; the buffer is carried from slice to slice. */
  ghost function FilledBy(job: Job, w: World, scheds: seq<seq<Turn>>, n: nat): (w': World)
    requires Set(StageAt(job, 0), w) && AllSound(job, scheds) && n <= |scheds|
    ensures Fits(job.sh) && HasShape(job.sh, w'.mem) && |w'.rands| == job.sh.segment
  {
    if n == 0 then w else After(StageAt(job, n - 1), FilledBy(job, w, scheds, n - 1), scheds[n - 1], |scheds[n - 1]|)
  }

  /** The final memory does not depend on how the lanes were scheduled in any slice. */
  lemma {:induction false} FillIndependent(job: Job, w: World, scheds: seq<seq<Turn>>, n: nat)
    requires Set(StageAt(job, 0), w) && AllSound(job, scheds) && n <= |scheds|
    ensures FilledBy(job, w, scheds, n).mem == Filled(job, w.mem, n)
    decreases n
  {
    hide SliceDone, After, Proper, Undisturbed, Fits, HasShape;
    if n > 0 {
      FillIndependent(job, w, scheds, n - 1);
      ScheduleIndependent(StageAt(job, n - 1), FilledBy(job, w, scheds, n - 1), scheds[n - 1]);
    }
  }
}
