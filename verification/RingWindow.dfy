/** The ring-buffer replay window of exercises/Replaywindow.c, and its agreement with the
    shifting bitmap of src/replay.c. */
module RingWindow {
  import opened Words
  import Replay

  /** `highest` is -1 before the first counter; slot `c % |seen|` belongs to counter `c`. */
  datatype Ring = Ring(highest: int, seen: seq<bool>)

  function Empty(window: nat): Ring {
    Ring(-1, seq(window, i => false))
  }

  function ClearSlots(seen: seq<bool>, lo: nat, hi: int): (cleared: seq<bool>)
    requires |seen| > 0
    ensures |cleared| == |seen|
    decreases hi - lo
  {
    if lo > hi then seen else ClearSlots(seen[lo % |seen| := false], lo + 1, hi)
  }

  predicate Fits(r: Ring) {
    |r.seen| > 0 && r.highest >= -1
  }

  predicate Admits(r: Ring, c: u64)
    requires Fits(r)
  {
    c > r.highest || (c > r.highest - |r.seen| && !r.seen[c % |r.seen|])
  }

  function Receive(r: Ring, c: u64): (r': Ring)
    requires Fits(r)
    ensures Fits(r') && |r'.seen| == |r.seen|
  {
    if c > r.highest then Ring(c, ClearSlots(r.seen, r.highest + 1, c)[c % |r.seen| := true])
    else if Admits(r, c) then r.(seen := r.seen[c % |r.seen| := true])
    else r
  }

  /** The ring is the window onto `committed`: each slot tells about the one counter that
      occupies it at this moment. */
  ghost predicate Represents(r: Ring, committed: set<u64>) {
    && Fits(r)
    && (if committed == {} then r.highest == -1 else 0 <= r.highest < TWO64 && Replay.IsMax(r.highest, committed))
    && forall x: nat | r.highest - |r.seen| < x <= r.highest :: r.seen[x % |r.seen|] <==> x in committed
  }

  lemma ModDiffers(x: nat, y: nat, n: nat)
    requires x < y < x + n
    ensures x % n != y % n
  {
    if x % n == y % n {
      var p, q := x / n, y / n;
      assert n * p + x % n == x && n * q + y % n == y;
      if p < q { ProductGap(n, p, q); }
      if q < p { ProductGap(n, q, p); }
    }
  }

  lemma {:induction false} ClearedSlot(seen: seq<bool>, lo: nat, hi: int, x: nat)
    requires |seen| > 0 && hi - |seen| < x <= hi
    ensures ClearSlots(seen, lo, hi)[x % |seen|] <==> x < lo && seen[x % |seen|]
    decreases hi - lo
  {
    if lo <= hi {
      ClearedSlot(seen[lo % |seen| := false], lo + 1, hi, x);
      if x < lo { ModDiffers(x, lo, |seen|); }
    }
  }

  /** One `RECV` line decides acceptability and commits exactly what it accepts. */
  lemma ReceiveCommits(r: Ring, committed: set<u64>, c: u64)
    requires Represents(r, committed)
    ensures Admits(r, c) <==> Replay.AcceptableWithin(|r.seen|, committed, c)
    ensures Represents(Receive(r, c), if Admits(r, c) then committed + {c} else committed)
  {
    if committed != {} {
      assert forall m: u64 :: Replay.IsMax(m, committed) ==> m == r.highest;
    }
    if Admits(r, c) {
      var r' := Receive(r, c);
      forall x: nat | r'.highest - |r.seen| < x <= r'.highest
        ensures r'.seen[x % |r.seen|] <==> x in committed + {c}
      {
        if x < c && c < x + |r.seen| { ModDiffers(x, c, |r.seen|); }
        if c < x && x < c + |r.seen| { ModDiffers(c, x, |r.seen|); }
        if c > r.highest { ClearedSlot(r.seen, r.highest + 1, c, x); }
      }
    }
  }

  // ---- verdict sequences ----

  function RingVerdicts(r: Ring, cs: seq<u64>): seq<bool>
    requires Fits(r)
    decreases |cs|
  {
    if cs == [] then [] else [Admits(r, cs[0])] + RingVerdicts(Receive(r, cs[0]), cs[1..])
  }

  /** The bitmap used the way the daemon uses it: check first, update only what was accepted. */
  function BitmapVerdicts(f: Replay.Filter, cs: seq<u64>): seq<bool>
    decreases |cs|
  {
    if cs == [] then []
    else
      [Replay.Admits(f, cs[0])]
      + BitmapVerdicts(if Replay.Admits(f, cs[0]) then Replay.Commit(f, cs[0]) else f, cs[1..])
  }

  lemma {:induction false} SameVerdictsFrom(r: Ring, f: Replay.Filter, committed: set<u64>, cs: seq<u64>)
    requires Represents(r, committed) && Replay.Represents(f, committed) && |r.seen| == 2048
    ensures RingVerdicts(r, cs) == BitmapVerdicts(f, cs)
    decreases |cs|
  {
    if cs != [] {
      var c := cs[0];
      ReceiveCommits(r, committed, c);
      Replay.AdmitsDecides(f, committed, c);
      if Admits(r, c) {
        Replay.CommitAdds(f, committed, c);
        SameVerdictsFrom(Receive(r, c), Replay.Commit(f, c), committed + {c}, cs[1..]);
      } else {
        SameVerdictsFrom(r, f, committed, cs[1..]);
      }
    }
  }

  /** The two implementations give the same verdict at every step of every counter sequence. */
  lemma SameVerdicts(cs: seq<u64>)
    ensures RingVerdicts(Empty(2048), cs) == BitmapVerdicts(Replay.Fresh(), cs)
  {
    SameVerdictsFrom(Empty(2048), Replay.Fresh(), {}, cs);
  }

  // ---- the ring updated in place ----

  class Window {
    var highest: int
    const seen: array<bool>

    ghost predicate Valid()
      reads this
    {
      seen.Length > 0 && highest >= -1
    }

    ghost function View(): Ring
      reads this, seen
    {
      Ring(highest, seen[..])
    }

    constructor (size: nat)
      requires size > 0
      ensures Valid() && fresh(seen) && View() == Empty(size)
    {
      seen := new bool[size](i => false);
      highest := -1;
    }

    method Recv(counter: u64) returns (ok: bool)
      requires Valid()
      modifies this, seen
      ensures Valid() && ok == Admits(old(View()), counter) && View() == Receive(old(View()), counter)
      ensures forall committed :: Represents(old(View()), committed) ==>
        && (ok <==> Replay.AcceptableWithin(seen.Length, committed, counter))
        && Represents(View(), if ok then committed + {counter} else committed)
    {
      forall committed | Represents(View(), committed)
        ensures Admits(View(), counter) <==> Replay.AcceptableWithin(seen.Length, committed, counter)
        ensures Represents(Receive(View(), counter),
                           if Admits(View(), counter) then committed + {counter} else committed)
      {
        ReceiveCommits(View(), committed, counter);
      }
      if counter > highest {
        var i := highest + 1;
        while i <= counter
          invariant old(highest) + 1 <= i <= counter + 1
          invariant ClearSlots(seen[..], i, counter) == ClearSlots(old(seen[..]), old(highest) + 1, counter)
        {
          seen[i % seen.Length] := false;
          i := i + 1;
        }
        seen[counter % seen.Length] := true;
        highest := counter;
        ok := true;
      } else if counter > highest - seen.Length {
        ok := !seen[counter % seen.Length];
        if ok { seen[counter % seen.Length] := true; }
      } else {
        ok := false;
      }
    }
  }
}
