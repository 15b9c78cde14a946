/** Supply safety: over every run, value is neither created nor spent twice; only decay takes it. */
module Supply {
  import opened Field
  import opened Group
  import opened Bytes
  import opened Hashing
  import opened Merkle
  import opened Notes
  import opened TreeState
  import opened ActionCircuit
  import opened Balance
  import opened Bundles
  import opened LedgerMachine
  import opened Runs

  /** `s` is a known opening of a note commitment. */
  ghost predicate Opens(w: World, s: seq<Base>, cm: Base)
  {
    s in w.known.poseidon && |s| == COMMIT_ELEMENTS && w.c.poseidon(s) == cm
  }

  /** What a leaf is worth: the value in its opening; a leaf nobody can open is worth nothing. */
  ghost function LeafValue(w: World, cm: Base): nat
  {
    if s :| Opens(w, s, cm) then s[2] % 0x8000_0000_0000_0000 else 0
  }

  lemma OpeningIsUnique(w: World, s: seq<Base>, cm: Base)
    requires CollisionFree(w.c, w.known) && Opens(w, s, cm)
    ensures LeafValue(w, cm) == s[2] % 0x8000_0000_0000_0000
  {}

  /** The value of the spent and of the created commitment is the value in the action's cells. */
  lemma ActionValues(w: World, r: Spend)
    requires CollisionFree(w.c, w.known) && r in Satisfying(w.c) && r in Computed(w.c, w.known)
    ensures LeafValue(w, r.x.CmOld(w.c, r.inst)) == r.x.value
    ensures LeafValue(w, r.inst.cmNew) == r.x.newValue
  {
    CellValue(w, r.x.Old(w.c, r.inst));
    CellValue(w, r.x.New(w.c, r.inst));
  }

  lemma CellValue(w: World, n: NoteCells)
    requires CollisionFree(w.c, w.known) && CommitHolds(n) && ActionCircuit.Elements(n) in w.known.poseidon
    ensures LeafValue(w, w.c.poseidon(ActionCircuit.Elements(n))) == n.value
  {
    CommitExact(n);
    PackExact(n.value, n.tNote, n.kind, n.expiry);
    OpeningIsUnique(w, ActionCircuit.Elements(n), w.c.poseidon(ActionCircuit.Elements(n)));
  }

  /** The value of all leaves. */
  ghost function TotalValue(w: World, leaves: seq<Base>): nat
  {
    if leaves == [] then 0 else TotalValue(w, leaves[..|leaves| - 1]) + LeafValue(w, leaves[|leaves| - 1])
  }

  /** The value of the leaves no spend has taken. */
  ghost function UnspentValue(w: World, leaves: seq<Base>, taken: set<nat>): nat
  {
    if leaves == [] then 0
    else
      var n := |leaves| - 1;
      UnspentValue(w, leaves[..n], taken) + if n in taken then 0 else LeafValue(w, leaves[n])
  }

  /** The positions whose notes were spent; a dummy of value 0 takes none. */
  function Taken(h: seq<Spend>): set<nat>
  {
    set r | r in h && r.x.value > 0 :: r.x.leafPos
  }

  /** The value that came in from outside. */
  ghost function BroughtIn(w: World, events: seq<Event>): nat
  {
    if events == [] then 0
    else
      var before, e := events[..|events| - 1], events[|events| - 1];
      BroughtIn(w, before) + if e.Added? && Accepts(w, Run(w, before).s, e) then LeafValue(w, e.cm) else 0
  }

  lemma {:induction false} TotalAppend(w: World, a: seq<Base>, b: seq<Base>)
    ensures TotalValue(w, a + b) == TotalValue(w, a) + TotalValue(w, b)
    decreases |b|
  {
    if b == [] {
      assert a + b == a;
    } else {
      var n := |b| - 1;
      assert (a + b)[..|a + b| - 1] == a + b[..n];
      TotalAppend(w, a, b[..n]);
    }
  }

  /** The leaves an accepted bundle appends are worth what its actions create. */
  lemma {:induction false} CreatedValue(w: World, h: seq<Spend>, cms: seq<Base>)
    requires CollisionFree(w.c, w.known) && Proven(w, h)
    requires |cms| == |h| && forall i | 0 <= i < |h| :: cms[i] == h[i].inst.cmNew
    ensures TotalValue(w, cms) == Sum(Created, h)
    decreases |h|
  {
    if h != [] {
      var n := |h| - 1;
      CreatedValue(w, h[..n], cms[..n]);
      assert h[n] in h;
      ActionValues(w, h[n]);
    }
  }

  /** All value in the tree came in from outside or out of decayed spends. */
  lemma {:induction false} TotalIsAccounted(w: World, events: seq<Event>)
    requires Trusted(w) && RunKnown(w, events)
    ensures TotalValue(w, Run(w, events).s.leaves) == BroughtIn(w, events) + Sum(Decayed, Run(w, events).spends)
  {
    if events != [] {
      var before, e := events[..|events| - 1], events[|events| - 1];
      TotalIsAccounted(w, before);
      var t := Run(w, before);
      if Accepts(w, t.s, e) {
        TotalAppend(w, t.s.leaves, NewLeaves(e));
        SumAppend(Decayed, t.spends, NewSpends(w, e));
        NewValue(w, t.s, e);
      }
    }
  }

  lemma NewValue(w: World, s: LedgerState, e: Event)
    requires Trusted(w) && Accepts(w, s, e)
    requires e.Received? ==> BundleKnown(w.c, w.known, w.e, e.bundle, e.sighash)
    ensures TotalValue(w, NewLeaves(e)) == if e.Added? then LeafValue(w, e.cm) else Sum(Decayed, NewSpends(w, e))
    ensures e.Added? ==> NewSpends(w, e) == []
  {
    match e
    case Added(cm) => assert [cm][..0] == [];
    case Received(b, sighash) => ReceivedValue(w, s, b, sighash);
  }

  /** An accepted bundle creates what its spends were worth. */
  lemma ReceivedValue(w: World, s: LedgerState, b: Bundle, sighash: bytes)
    requires Trusted(w) && Accepts(w, s, Received(b, sighash)) && BundleKnown(w.c, w.known, w.e, b, sighash)
    ensures TotalValue(w, Commitments(b.actions)) == Sum(Decayed, SpendsOf(w.c, w.e, b))
  {
    AcceptedByProof(w, s, b, sighash);
    SpendInputs(w, b);
    CreatedValue(w, SpendsOf(w.c, w.e, b), Commitments(b.actions));
  }

  lemma {:induction false} UnspentIgnores(w: World, leaves: seq<Base>, taken: set<nat>, p: nat)
    requires p >= |leaves|
    ensures UnspentValue(w, leaves, taken + {p}) == UnspentValue(w, leaves, taken)
  {
    if leaves != [] { UnspentIgnores(w, leaves[..|leaves| - 1], taken, p); }
  }

  /** Taking one more leaf takes its value. */
  lemma {:induction false} UnspentTake(w: World, leaves: seq<Base>, taken: set<nat>, p: nat)
    requires p < |leaves| && p !in taken
    ensures UnspentValue(w, leaves, taken + {p}) + LeafValue(w, leaves[p]) == UnspentValue(w, leaves, taken)
    decreases |leaves|
  {
    var n := |leaves| - 1;
    if p == n {
      UnspentIgnores(w, leaves[..n], taken, p);
    } else {
      UnspentTake(w, leaves[..n], taken, p);
    }
  }

  /** One note, one nullifier, for two spends of the run. */
  lemma SameNullifier(w: World, h: seq<Spend>, q: Spend, r: Spend)
    requires Trusted(w) && Proven(w, h) && q in h && r in Satisfying(w.c) && r in Computed(w.c, w.known)
    ensures q.inst.nf == r.inst.nf <==> q.x.CmOld(w.c, q.inst) == r.x.CmOld(w.c, r.inst)
  {
    OneNoteOneNullifier(w.c, w.known, q.inst, q.x, r.inst, r.x);
  }

  /** The leaf a spend took is there and worth what the spend says. */
  ghost predicate LeafSpent(w: World, leaves: seq<Base>, r: Spend)
  {
    r.x.value > 0 ==> r.x.leafPos < |leaves| && LeafValue(w, leaves[r.x.leafPos]) == r.x.value
  }

  predicate DifferentLeaves(q: Spend, r: Spend)
  {
    q.x.value > 0 && r.x.value > 0 ==> q.x.leafPos != r.x.leafPos
  }

  /** Different nullifiers are different commitments and so different leaves. */
  lemma SpendsDiffer(w: World, leaves: seq<Base>, h: seq<Spend>, i: nat, j: nat)
    requires Trusted(w) && Proven(w, h) && TookLeaves(w.c, leaves, h) && Distinct(Nfs(h)) && i < j < |h|
    ensures DifferentLeaves(h[i], h[j])
  {
    assert h[i] in h && h[j] in h && Nfs(h)[i] != Nfs(h)[j];
    SameNullifier(w, h, h[i], h[j]);
  }

  lemma LeafIsSpent(w: World, leaves: seq<Base>, h: seq<Spend>, r: Spend)
    requires CollisionFree(w.c, w.known) && Proven(w, h) && TookLeaves(w.c, leaves, h) && r in h
    ensures LeafSpent(w, leaves, r)
  {
    ActionValues(w, r);
  }

  /** What was spent and what is unspent make up the whole tree. */
  lemma {:induction false} UnspentAndSpent(w: World, leaves: seq<Base>, h: seq<Spend>)
    requires forall r | r in h :: LeafSpent(w, leaves, r)
    requires forall i, j | 0 <= i < j < |h| :: DifferentLeaves(h[i], h[j])
    ensures UnspentValue(w, leaves, Taken(h)) + Sum(Spent, h) == TotalValue(w, leaves)
    decreases |h|
  {
    if h == [] {
      NothingTaken(w, leaves);
    } else {
      var n := |h| - 1;
      var r := h[n];
      assert h[..n] + [r] == h && r in h;
      UnspentAndSpent(w, leaves, h[..n]);
      if r.x.value > 0 {
        assert Taken(h) == Taken(h[..n]) + {r.x.leafPos};
        assert r.x.leafPos !in Taken(h[..n]);
        UnspentTake(w, leaves, Taken(h[..n]), r.x.leafPos);
      } else {
        assert Taken(h) == Taken(h[..n]);
      }
    }
  }

  lemma {:induction false} NothingTaken(w: World, leaves: seq<Base>)
    ensures UnspentValue(w, leaves, Taken([])) == TotalValue(w, leaves)
  {
    if leaves != [] { NothingTaken(w, leaves[..|leaves| - 1]); }
  }

  /**
   Supply over every run: the unspent notes and what decay has taken out of the spent ones add up
   to exactly what came in from outside. So the unspent value never exceeds it.
   */
  lemma SupplyConserved(w: World, events: seq<Event>)
    requires Trusted(w) && RunKnown(w, events)
    ensures var t := Run(w, events); var unspent := UnspentValue(w, t.s.leaves, Taken(t.spends));
      && Sum(Decayed, t.spends) <= Sum(Spent, t.spends)
      && unspent + (Sum(Spent, t.spends) - Sum(Decayed, t.spends)) == BroughtIn(w, events)
      && unspent <= BroughtIn(w, events)
  {
    TotalIsAccounted(w, events);
    SpentIsTaken(w, events);
  }

  /** What a run spent is what it took out of the tree. */
  lemma SpentIsTaken(w: World, events: seq<Event>)
    requires Trusted(w) && RunKnown(w, events)
    ensures var t := Run(w, events);
      && Sum(Decayed, t.spends) <= Sum(Spent, t.spends)
      && UnspentValue(w, t.s.leaves, Taken(t.spends)) + Sum(Spent, t.spends) == TotalValue(w, t.s.leaves)
  {
    RunInvariant(w, events);
    TraceIsSplit(w, Run(w, events));
  }

  lemma TraceIsSplit(w: World, t: Trace)
    requires Trusted(w) && Invariant(w, t)
    ensures Sum(Decayed, t.spends) <= Sum(Spent, t.spends)
    ensures UnspentValue(w, t.s.leaves, Taken(t.spends)) + Sum(Spent, t.spends) == TotalValue(w, t.s.leaves)
  {
    TreeIsSplit(w, t.s.leaves, t.spends);
    NetsAdd(w.c, t.spends);
  }

  /** Spends with different nullifiers split the tree into spent and unspent value. */
  lemma TreeIsSplit(w: World, leaves: seq<Base>, h: seq<Spend>)
    requires Trusted(w) && Proven(w, h) && TookLeaves(w.c, leaves, h) && Distinct(Nfs(h))
    ensures UnspentValue(w, leaves, Taken(h)) + Sum(Spent, h) == TotalValue(w, leaves)
  {
    forall r | r in h ensures LeafSpent(w, leaves, r) {
      LeafIsSpent(w, leaves, h, r);
    }
    forall i, j | 0 <= i < j < |h| ensures DifferentLeaves(h[i], h[j]) {
      SpendsDiffer(w, leaves, h, i, j);
    }
    UnspentAndSpent(w, leaves, h);
  }

  /** Some action of the history spent this commitment. */
  ghost predicate SpentBefore(c: Crypto, h: seq<Spend>, cm: Base)
  {
    exists q :: q in h && q.x.CmOld(c, q.inst) == cm
  }

  /**
   The nullifier set is exact: the nullifier that any satisfying spend of a commitment exposes is
   in the set exactly when an accepted action spent that commitment.
   */
  lemma NullifierMeansSpent(w: World, events: seq<Event>, r: Spend)
    requires Trusted(w) && RunKnown(w, events) && r in Satisfying(w.c) && r in Computed(w.c, w.known)
    ensures r.inst.nf in Run(w, events).s.nullifiers <==> SpentBefore(w.c, Run(w, events).spends, r.x.CmOld(w.c, r.inst))
  {
    RunInvariant(w, events);
    NullifierSetExact(w, Run(w, events), r);
  }

  lemma NullifierSetExact(w: World, t: Trace, r: Spend)
    requires Trusted(w) && Invariant(w, t) && r in Satisfying(w.c) && r in Computed(w.c, w.known)
    ensures r.inst.nf in t.s.nullifiers <==> SpentBefore(w.c, t.spends, r.x.CmOld(w.c, r.inst))
  {
    var nf, cm := r.inst.nf, r.x.CmOld(w.c, r.inst);
    forall q | q in t.spends ensures q.inst.nf == nf <==> q.x.CmOld(w.c, q.inst) == cm {
      SameNullifier(w, t.spends, q, r);
    }
    NullifierOf(w.c, t.spends, nf, cm);
  }

  lemma NullifierOf(c: Crypto, h: seq<Spend>, nf: Base, cm: Base)
    requires forall q | q in h :: q.inst.nf == nf <==> q.x.CmOld(c, q.inst) == cm
    ensures nf in SetOf(Nfs(h)) <==> SpentBefore(c, h, cm)
  {
    if nf in SetOf(Nfs(h)) {
      var i :| 0 <= i < |h| && Nfs(h)[i] == nf;
      assert h[i] in h;
    }
    if q :| q in h && q.x.CmOld(c, q.inst) == cm {
      var i :| 0 <= i < |h| && h[i] == q;
      assert Nfs(h)[i] == nf;
    }
  }
}
