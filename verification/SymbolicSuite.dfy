/** A cipher suite of free terms.  Diffie-Hellman results are kept in a normal form, the unordered
    pair of the two private keys, so that the two ends compute the same term. */
module SymbolicSuite {
  import opened Words
  import opened Errors
  import opened Handshake

  datatype Term =
    | Name(id: nat)
    | Empty
    | One
    | Two(t: Term)
    | Point(private: Term)
    | LowOrder
    | Shared(privates: set<Term>)
    | Power(base: Term, private: Term)
    | Mixed(digest: Term, data: Term)
    | Keyed(key: Term, message: Term)
    | Sealed(key: Term, ad: Term, plaintext: Term)
    | Stamp(sec: u64, nsec: u32)
    | Mac(key: Term, fields: seq<Term>)

  function Dh(theirs: Term, mine: Term): Option<Term> {
    match theirs
    case Point(x) => Some(Shared({x, mine}))
    case LowOrder => None
    case _ => Some(Power(theirs, mine))
  }

  function Open(key: Term, ad: Term, c: Term): Option<Term> {
    if c.Sealed? && c.key == key && c.ad == ad then Some(c.plaintext) else None
  }

  function Terms(): Suite<Term> {
    Suite(Name(0), Name(1), (h, d) => Mixed(h, d), (k, m) => Keyed(k, m), One, t => Two(t), Empty,
          x => Point(x), (t, x) => Dh(t, x), (k, ad, m) => Sealed(k, ad, m), (k, ad, c) => Open(k, ad, c),
          (sec, nsec) => Stamp(sec, nsec), (t: Term) => if t.Stamp? then t.sec else 0, (k, fs) => Mac(k, fs))
  }

  /** The initiation, written out: every key and every hash down to the two start values, `Name(0)` for
      the chaining key and `Name(1)` for the transcript. */
  lemma InitiationTerms(e: Term, si: Term, sr: Term, index: u32, sec: u64, nsec: u32)
    ensures
      var r := InitiationFor(Terms(), e, si, Point(si), Point(sr), index, sec, nsec);
      && r.Ok? && var (m, st) := r.value;
      var x1 := Keyed(Keyed(Keyed(Name(0), Point(e)), One), Shared({sr, e}));
      var x2 := Keyed(Keyed(x1, One), Shared({sr, si}));
      var h2 := Mixed(Mixed(Name(1), Point(sr)), Point(e));
      && m.ephemeral == Point(e)
      && m.encStatic == Sealed(Keyed(x1, Two(Keyed(x1, One))), h2, Point(si))
      && m.encTimestamp == Sealed(Keyed(x2, Two(Keyed(x2, One))), Mixed(h2, m.encStatic), Stamp(sec, nsec))
      && m.mac1 == Mac(Point(sr), [m.ephemeral, m.encStatic, m.encTimestamp])
      && st.chainingKey == Keyed(x2, One) && st.hash == Mixed(Mixed(h2, m.encStatic), m.encTimestamp)
  {
    var s := Terms();
    ChainSteps(s, Name(0), Point(e), Shared({sr, e}), Shared({sr, si}));
    var m := InitiationFor(s, e, si, Point(si), Point(sr), index, sec, nsec).value.0;
    TranscriptSteps(s, Name(1), Point(sr), Point(e), m.encStatic, m.encTimestamp);
  }

  /** The response and the transport keys, written out from the state after the initiation. */
  lemma ResponseTerms(er: Term, e: Term, si: Term, indexR: u32, indexI: u32, c: Term, h: Term)
    ensures
      var r := ResponseFor(Terms(), er, Point(e), Point(si), indexR, indexI, c, h);
      && r.Ok? && var (m, keys) := r.value;
      var x3 := Keyed(Keyed(Keyed(Keyed(c, Point(er)), One), Shared({e, er})), One);
      var x4 := Keyed(x3, Shared({si, er}));
      var last := Keyed(Keyed(x4, One), Empty);
      && m.ephemeral == Point(er)
      && m.encNothing == Sealed(Keyed(x4, Two(Keyed(x4, One))), Mixed(h, Point(er)), Empty)
      && m.mac1 == Mac(Point(si), [m.ephemeral, m.encNothing])
      && keys == Keys(Keyed(last, One), Keyed(last, Two(Keyed(last, One))))
  {
    var s := Terms();
    ChainSteps(s, c, Point(er), Shared({e, er}), Shared({si, er}));
    TranscriptSteps(s, h, Point(er), Empty, Empty, Empty);
  }

  /** The assumptions of the handshake theorems hold together. */
  lemma TermsAreIdeal()
    ensures Lawful(Terms()) && Ideal(Terms())
  {
    var s := Terms();
    forall x: Term, y: Term ensures s.dh(s.pub(x), y).Some? && s.dh(s.pub(x), y) == s.dh(s.pub(y), x) {
      assert s.dh(s.pub(x), y) == Some(Shared({x, y}));
      assert s.dh(s.pub(y), x) == Some(Shared({y, x}));
      assert {x, y} == {y, x};
    }
  }
}
