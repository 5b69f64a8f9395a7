/** The anti-replay filter of src/replay.c: a 2048-bit window kept in 32 words that are shifted
    as the highest counter advances.  The filter is a fast form of a simple object, the set of
    all counters committed so far, and the lemmas here say in what sense. */
module Replay {
  import opened Words

  const WORDS: nat := 32
  const WINDOW: nat := 2048

  type Bitmap = w: seq<u64> | |w| == WORDS witness seq(WORDS, i => 0)

  /** `replay_filter_t` as a value: sessions hold it by value and copy it on rotation. */
  datatype Filter = Filter(last: u64, words: Bitmap)

  function Cleared(): Bitmap {
    seq(WORDS, i => 0)
  }

  /** `replay_init`. */
  function Fresh(): Filter {
    Filter(0, Cleared())
  }

  // ---- the operations on values ----

  /** Bit `k` of the whole bitmap, which stands for the counter `last - k`. */
  predicate Marked(words: Bitmap, k: nat)
    requires k < WINDOW
  {
    Bit(words[k / 64], k % 64)
  }

  function Mark(words: Bitmap, k: nat): Bitmap
    requires k < WINDOW
  {
    words[k / 64 := SetBit(words[k / 64], k % 64)]
  }

  /** `w | (1ULL << j)`. */
  function SetBit(w: u64, j: nat): u64
    requires j < 64
  {
    Or64(w, Shl64(1, j))
  }

  predicate Untouched(f: Filter) {
    f.last == 0 && f.words[0] == 0
  }

  predicate Admits(f: Filter, c: u64) {
    || Untouched(f)
    || c > f.last
    || (f.last - c < WINDOW && !Marked(f.words, f.last - c))
  }

  /** Word `i` of the bitmap moved up by `diff` bits, put together from two neighbouring words. */
  function ShiftedWord(words: Bitmap, diff: nat, i: nat): u64
    requires diff < WINDOW && i < WORDS
  {
    var wordShift, bitShift := diff / 64, diff % 64;
    if i < wordShift then 0
    else if bitShift > 0 && i > wordShift then
      Or64(Shl64(words[i - wordShift], bitShift), Shr(words[i - wordShift - 1], 64 - bitShift))
    else Shl64(words[i - wordShift], bitShift)
  }

  function Shifted(words: Bitmap, diff: nat): Bitmap
    requires diff < WINDOW
  {
    seq(WORDS, i requires 0 <= i < WORDS => ShiftedWord(words, diff, i))
  }

  function Commit(f: Filter, c: u64): Filter {
    if Untouched(f) then Filter(c, f.words[0 := 1])
    else if c > f.last then
      Filter(c, Mark(if c - f.last < WINDOW then Shifted(f.words, c - f.last) else Cleared(), 0))
    else if f.last - c < WINDOW then f.(words := Mark(f.words, f.last - c))
    else f
  }

  // ---- the object the filter stands for ----

  /** `f` is the window onto the set of committed counters `committed`. */
  ghost predicate Represents(f: Filter, committed: set<u64>) {
    if committed == {} then f == Fresh()
    else
      && f.last in committed
      && (forall c | c in committed :: c <= f.last)
      && (forall k: nat | k < WINDOW :: Marked(f.words, k) <==> k <= f.last && f.last - k in committed)
  }

  ghost predicate IsMax(m: u64, s: set<u64>) {
    m in s && forall c | c in s :: c <= m
  }

  /** The specification of a replay window of any size: accept what is new and not too old. */
  ghost predicate AcceptableWithin(window: nat, committed: set<u64>, c: u64) {
    || committed == {}
    || exists m: u64 :: IsMax(m, committed) && (c > m || (c !in committed && m - c < window))
  }

  ghost predicate Acceptable(committed: set<u64>, c: u64) {
    AcceptableWithin(2048, committed, c)
  }

  lemma BitsOfCleared(k: nat)
    requires k < WINDOW
    ensures !Marked(Cleared(), k)
  {
    BitOfZero(k % 64);
  }

  lemma MarkedAfterMark(words: Bitmap, j: nat, k: nat)
    requires j < WINDOW && k < WINDOW
    ensures Marked(Mark(words, j), k) <==> k == j || Marked(words, k)
  {
    if k / 64 == j / 64 {
      Pow2Values();
      Pow2BelowWord(j % 64);
      BitOfOr(words[j / 64], Shl64(1, j % 64), k % 64);
      BitOfPow2(j % 64, k % 64);
    }
  }

  lemma Pow2BelowWord(j: nat)
    requires j < 64
    ensures Shl64(1, j) == Pow2(j)
  {
    hide Pow2, Shl64;
    Pow2Values();
    Pow2Doubles(j);
    Pow2Monotone(j + 1, 64);
    Shl64IsProduct(1, j);
    ModUnique(Pow2(j), TWO64, 0, Pow2(j));
  }

  lemma Pow2Doubles(j: nat)
    ensures Pow2(j + 1) == 2 * Pow2(j)
  {}

  lemma MarkedAfterShift(words: Bitmap, diff: nat, k: nat)
    requires diff < WINDOW && k < WINDOW
    ensures Marked(Shifted(words, diff), k) <==> diff <= k && Marked(words, k - diff)
  {
    var wordShift, bitShift := diff / 64, diff % 64;
    var i, j := k / 64, k % 64;
    if i < wordShift {
      BitOfZero(j);
    } else {
      BitOfShl64(words[i - wordShift], bitShift, j);
      if i > wordShift {
        BitOfShr(words[i - wordShift - 1], 64 - bitShift, j);
        if bitShift > 0 {
          BitOfOr(Shl64(words[i - wordShift], bitShift), Shr(words[i - wordShift - 1], 64 - bitShift), j);
          if bitShift <= j {
            Pow2Values();
            BitBeyond(words[i - wordShift - 1], 64, j + 64 - bitShift);
            assert (k - diff) / 64 == i - wordShift && (k - diff) % 64 == j - bitShift;
          } else {
            assert (k - diff) / 64 == i - wordShift - 1 && (k - diff) % 64 == j + 64 - bitShift;
          }
        }
      }
    }
  }

  lemma NotUntouched(f: Filter, committed: set<u64>)
    requires Represents(f, committed)
    ensures Untouched(f) <==> committed == {}
  {
    if committed != {} {
      assert Marked(f.words, 0);
      BitOfZero(0);
    }
  }

  /** `replay_check` decides acceptability. */
  lemma AdmitsDecides(f: Filter, committed: set<u64>, c: u64)
    requires Represents(f, committed)
    ensures Admits(f, c) <==> Acceptable(committed, c)
    ensures Admits(f, c) ==> c !in committed
  {
    NotUntouched(f, committed);
    if committed != {} {
      assert IsMax(f.last, committed);
      assert forall m :: IsMax(m, committed) ==> m == f.last;
    }
  }

  lemma BehindMarks(words: Bitmap, last: u64, committed: set<u64>, c: u64, k: nat)
    requires c <= last && k < WINDOW
    requires Marked(words, k) <==> k <= last && last - k in committed
    ensures Marked(if last - c < WINDOW then Mark(words, last - c) else words, k) <==>
            k <= last && last - k in committed + {c}
  {
    if last - c < WINDOW { MarkedAfterMark(words, last - c, k); }
  }

  lemma CommitMarks(f: Filter, committed: set<u64>, c: u64, k: nat)
    requires Represents(f, committed) && k < WINDOW
    ensures
      var g := Commit(f, c);
      Marked(g.words, k) <==> k <= g.last && g.last - k in committed + {c}
  {
    hide Marked, Mark, Shifted;
    NotUntouched(f, committed);
    if committed == {} {
      FirstMark(k);
    } else if c > f.last {
      AdvanceMarks(f.words, f.last, committed, c, k);
    } else {
      BehindMarks(f.words, f.last, committed, c, k);
    }
  }

  /** `replay_update` adds the counter to the committed set, whatever the counter is. */
  lemma CommitAdds(f: Filter, committed: set<u64>, c: u64)
    requires Represents(f, committed)
    ensures Represents(Commit(f, c), committed + {c})
  {
    NotUntouched(f, committed);
    var g := Commit(f, c);
    assert c in committed + {c};
    forall k: nat | k < WINDOW
      ensures Marked(g.words, k) <==> k <= g.last && g.last - k in committed + {c}
    {
      CommitMarks(f, committed, c, k);
    }
  }

  lemma FirstMark(k: nat)
    requires k < WINDOW
    ensures Marked(Cleared()[0 := 1], k) <==> k == 0
  {
    assert Pow2(0) == 1;
    BitOfPow2(0, k % 64);
    BitOfZero(k % 64);
  }

  /** The words after an advance from `last` to `c`, where `words` is the window at `last`. */
  lemma AdvanceMarks(words: Bitmap, last: u64, committed: set<u64>, c: u64, k: nat)
    requires last < c && k < WINDOW && forall m | m in committed :: m <= last
    requires forall j: nat | j < WINDOW :: Marked(words, j) <==> j <= last && last - j in committed
    ensures Marked(Mark(if c - last < WINDOW then Shifted(words, c - last) else Cleared(), 0), k)
      <==> k <= c && c - k in committed + {c}
  {
    var diff := c - last;
    if diff < WINDOW {
      MarkedAfterMark(Shifted(words, diff), 0, k);
      MarkedAfterShift(words, diff, k);
      if k >= diff {
        var j: nat := k - diff;
        assert Marked(words, j) <==> j <= last && last - j in committed;
      }
    } else {
      MarkedAfterMark(Cleared(), 0, k);
      BitsOfCleared(k);
    }
  }

  /** A committed set has exactly one window. */
  lemma Canonical(f: Filter, g: Filter, committed: set<u64>)
    requires Represents(f, committed) && Represents(g, committed)
    ensures f == g
  {
    if committed != {} {
      Pow2Values();
      forall i | 0 <= i < WORDS ensures f.words[i] == g.words[i] {
        forall j: nat | j < 64 ensures Bit(f.words[i], j) == Bit(g.words[i], j) {
          assert (64 * i + j) / 64 == i && (64 * i + j) % 64 == j;
          assert Marked(f.words, 64 * i + j) == Marked(g.words, 64 * i + j);
        }
        SameBits(f.words[i], g.words[i], 64);
      }
    }
  }

  /** Committing an admitted counter always changes the filter. */
  lemma CommitChanges(f: Filter, committed: set<u64>, c: u64)
    requires Represents(f, committed) && Admits(f, c)
    ensures Commit(f, c) != f
  {
    NotUntouched(f, committed);
    CommitAdds(f, committed, c);
    AdmitsDecides(f, committed, c);
    if committed != {} && c <= f.last {
      assert Marked(Commit(f, c).words, f.last - c);
    }
  }

  // ---- every sequence of updates ----

  function Counters(cs: seq<u64>): set<u64> {
    set c | c in cs
  }

  function CommitAll(f: Filter, cs: seq<u64>): Filter {
    if cs == [] then f else Commit(CommitAll(f, cs[..|cs| - 1]), cs[|cs| - 1])
  }

  lemma {:induction false} ReachableRepresents(cs: seq<u64>)
    ensures Represents(CommitAll(Fresh(), cs), Counters(cs))
  {
    if cs != [] {
      var init, c := cs[..|cs| - 1], cs[|cs| - 1];
      assert cs == init + [c];
      ReachableRepresents(init);
      CommitAdds(CommitAll(Fresh(), init), Counters(init), c);
      assert Counters(cs) == Counters(init) + {c};
    }
  }

  /** The verdict in every reachable state, in terms of the counters committed so far. */
  lemma ReachableVerdict(cs: seq<u64>, c: u64)
    ensures Admits(CommitAll(Fresh(), cs), c) <==> Acceptable(Counters(cs), c)
  {
    ReachableRepresents(cs);
    AdmitsDecides(CommitAll(Fresh(), cs), Counters(cs), c);
  }

  /** The filter depends only on which counters were committed: not on their order, not on
      repetitions, not on when stale ones arrived. */
  lemma OrderIndependent(cs: seq<u64>, ds: seq<u64>)
    requires Counters(cs) == Counters(ds)
    ensures CommitAll(Fresh(), cs) == CommitAll(Fresh(), ds)
  {
    ReachableRepresents(cs);
    ReachableRepresents(ds);
    Canonical(CommitAll(Fresh(), cs), CommitAll(Fresh(), ds), Counters(cs));
  }

  // ---- the filter updated in place ----

  lemma AdmitsDecidesAlways(f: Filter, c: u64)
    ensures forall committed :: Represents(f, committed) ==> (Admits(f, c) <==> Acceptable(committed, c))
  {
    forall committed | Represents(f, committed) ensures Admits(f, c) <==> Acceptable(committed, c) {
      AdmitsDecides(f, committed, c);
    }
  }

  lemma CommitAddsAlways(f: Filter, c: u64)
    ensures forall committed :: Represents(f, committed) ==> Represents(Commit(f, c), committed + {c})
  {
    forall committed | Represents(f, committed) ensures Represents(Commit(f, c), committed + {c}) {
      CommitAdds(f, committed, c);
    }
  }

  class ReplayFilter {
    var lastCounter: u64
    const bitmap: array<u64>

    ghost predicate Valid() {
      bitmap.Length == WORDS
    }

    ghost function View(): Filter
      requires Valid()
      reads this, bitmap
    {
      Filter(lastCounter, bitmap[..])
    }

    constructor ()
      ensures Valid() && fresh(bitmap)
      ensures View() == Fresh()
    {
      bitmap := new u64[WORDS](i => 0);
      lastCounter := 0;
    }

    method Clear()
      requires Valid()
      modifies this, bitmap
      ensures Valid() && View() == Fresh()
    {
      lastCounter := 0;
      forall i | 0 <= i < bitmap.Length { bitmap[i] := 0; }
    }

    method Check(counter: u64) returns (ok: bool)
      requires Valid()
      ensures ok == Admits(View(), counter)
      ensures forall committed :: Represents(View(), committed) ==> (ok <==> Acceptable(committed, counter))
    {
      AdmitsDecidesAlways(View(), counter);
      if lastCounter == 0 && bitmap[0] == 0 { return true; }
      if counter > lastCounter { return true; }
      var diff := lastCounter - counter;
      if diff >= WINDOW { return false; }
      var wordIdx, bitIdx := diff / 64, diff % 64;
      BitTest(bitmap[wordIdx], bitIdx);
      if And(bitmap[wordIdx], Shl64(1, bitIdx)) != 0 { return false; }
      return true;
    }

    method Update(counter: u64)
      requires Valid()
      modifies this, bitmap
      ensures Valid() && View() == Commit(old(View()), counter)
      ensures forall committed :: Represents(old(View()), committed) ==> Represents(View(), committed + {counter})
    {
      hide Represents, Shifted, Mark, Or64;
      CommitAddsAlways(View(), counter);
      if lastCounter == 0 && bitmap[0] == 0 {
        lastCounter := counter;
        bitmap[0] := 1;
        return;
      }
      if counter > lastCounter {
        Advance(counter);
      } else {
        var diff := lastCounter - counter;
        if diff < WINDOW {
          MarkBit(diff);
        }
      }
    }

    /** An out-of-order counter: set its bit. */
    method MarkBit(diff: nat)
      requires Valid() && diff < WINDOW
      modifies bitmap
      ensures bitmap[..] == Mark(old(bitmap[..]), diff)
    {
      var wordIdx, bitIdx := diff / 64, diff % 64;
      bitmap[wordIdx] := Or64(bitmap[wordIdx], Shl64(1, bitIdx));
    }

    /** A new highest counter: slide or reset the window, then set bit 0. */
    method Advance(counter: u64)
      requires Valid() && counter > lastCounter
      modifies this, bitmap
      ensures Valid() && lastCounter == counter
      ensures var diff := counter - old(lastCounter);
        bitmap[..] == Mark(if diff < WINDOW then Shifted(old(bitmap[..]), diff) else Cleared(), 0)
    {
      var diff := counter - lastCounter;
      if diff < WINDOW {
        Slide(diff);
      } else {
        forall i | 0 <= i < bitmap.Length { bitmap[i] := 0; }
        assert bitmap[..] == Cleared();
      }
      assert Shl64(1, 0) == 1;
      bitmap[0] := Or64(bitmap[0], 1);
      lastCounter := counter;
    }

    /** The word loop of the update: build the moved bitmap aside, then copy it back. */
    method Slide(diff: nat)
      requires Valid() && diff < WINDOW
      modifies bitmap
      ensures bitmap[..] == Shifted(old(bitmap[..]), diff)
    {
      hide Shl64, Shr, Or64;
      var wordShift, bitShift := diff / 64, diff % 64;
      var newBitmap := new u64[WORDS](i => 0);
      for i := 0 to WORDS
        invariant bitmap[..] == old(bitmap[..])
        invariant forall j | 0 <= j < i :: newBitmap[j] == ShiftedWord(old(bitmap[..]), diff, j)
        invariant forall j | i <= j < WORDS :: newBitmap[j] == 0
      {
        if i >= wordShift {
          newBitmap[i] := Shl64(bitmap[i - wordShift], bitShift);
          if bitShift > 0 && i > wordShift {
            newBitmap[i] := Or64(newBitmap[i], Shr(bitmap[i - wordShift - 1], 64 - bitShift));
          }
        }
      }
      forall i | 0 <= i < bitmap.Length { bitmap[i] := newBitmap[i]; }
    }
  }

  lemma BitTest(w: u64, j: nat)
    requires j < 64
    ensures And(w, Shl64(1, j)) != 0 <==> Bit(w, j)
  {
    Pow2BelowWord(j);
    AndPow2(w, j);
  }
}
