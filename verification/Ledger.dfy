/** The ledger: `add_note`, `verify` and `apply`, on objects, against a state machine on values. */
module LedgerMachine {
  import opened Group
  import opened Bytes
  import opened Hashing
  import opened Merkle
  import opened Notes
  import opened TreeState
  import opened Bundles

  const ANCHOR_HISTORY: nat := 20_000

  /** Leaves of the tree, every root that was ever an anchor, and the spent nullifiers. */
  datatype LedgerState = LedgerState(leaves: seq<Base>, roots: seq<Base>, nullifiers: set<Base>)

  function InitialState(c: Crypto): LedgerState { LedgerState([], [Root(c, [])], {}) }

  /** The state after a transaction that appends `cms` and spends `nfs`. */
  function Sealed(c: Crypto, s: LedgerState, cms: seq<Base>, nfs: seq<Base>): LedgerState
  {
    LedgerState(s.leaves + cms, s.roots + [Root(c, s.leaves + cms)], s.nullifiers + SetOf(nfs))
  }

  /** What `verify` answers, check by check. */
  function Verdict(v: Verifier, c: Crypto, s: LedgerState, b: Bundle, sighash: bytes): Result<(), VerifyError>
    requires HasCoordinates(b)
  {
    if |b.actions| != ACTIONS || |b.spendAuthSigs| != ACTIONS then Err(WrongActionCount)
    else if |s.leaves| + ACTIONS > MAX_LEAVES then Err(TreeFull)
    else if b.anchor !in Window(s.roots, ANCHOR_HISTORY) then Err(UnknownAnchor)
    else
      var nfs := Nullifiers(b.actions);
      var repeated := FirstConflict({}, nfs);
      if repeated.Some? then Err(DoubleSpend(repeated.value))
      else
        var spent := FirstSpent(s.nullifiers, nfs);
        if spent.Some? then Err(DoubleSpend(spent.value)) else VerifyBundleCrypto(v, c, b, sighash)
  }

  function FirstSpent(spent: set<Base>, nfs: seq<Base>): (r: Option<Base>)
    ensures r.None? <==> forall i | 0 <= i < |nfs| :: nfs[i] !in spent
  {
    if nfs == [] then None else if nfs[0] in spent then Some(nfs[0]) else FirstSpent(spent, nfs[1..])
  }

  lemma {:induction false} FirstSpentFrom(spent: set<Base>, nfs: seq<Base>, i: nat)
    requires i <= |nfs| && forall k | 0 <= k < i :: nfs[k] !in spent
    ensures FirstSpent(spent, nfs) == FirstSpent(spent, nfs[i..])
  {
    if i > 0 {
      FirstSpentFrom(spent, nfs, i - 1);
      assert nfs[i - 1..][1..] == nfs[i..];
    }
  }

  /** A bundle is accepted exactly when it has room, a recent anchor, fresh nullifiers and valid cryptography. */
  lemma VerdictOk(v: Verifier, c: Crypto, s: LedgerState, b: Bundle, sighash: bytes)
    requires HasCoordinates(b)
    ensures Verdict(v, c, s, b, sighash).Ok? <==>
      && |s.leaves| + ACTIONS <= MAX_LEAVES && b.anchor in Window(s.roots, ANCHOR_HISTORY)
      && Distinct(Nullifiers(b.actions)) && (forall i | 0 <= i < |b.actions| :: Nullifiers(b.actions)[i] !in s.nullifiers)
      && VerifyBundleCrypto(v, c, b, sighash).Ok?
  {
    var nfs := Nullifiers(b.actions);
    ConflictFree({}, nfs);
  }

  /** Accepted nullifiers have no conflict with the ledger, so `insert_all` cannot fail any more. */
  lemma InsertSucceeds(v: Verifier, c: Crypto, s: LedgerState, b: Bundle, sighash: bytes)
    requires HasCoordinates(b) && Verdict(v, c, s, b, sighash).Ok?
    ensures FirstConflict(s.nullifiers, Nullifiers(b.actions)) == None
  {
    ConflictFree({}, Nullifiers(b.actions));
    ConflictFree(s.nullifiers, Nullifiers(b.actions));
  }

  // ---------------------------------------------------------------- the objects

  class Ledger {
    const crypto: Crypto
    const tree: CommitmentTree
    const anchors: AnchorHistory
    const nullifiers: NullifierSet

    ghost predicate Valid()
      reads this, tree, anchors
    {
      && tree.crypto == crypto && tree.Valid() && anchors.Valid()
      && anchors.capacity == ANCHOR_HISTORY
    }

    ghost function State(): LedgerState
      reads tree, anchors, nullifiers
    {
      LedgerState(tree.leaves, anchors.pushed, nullifiers.spent)
    }

    constructor (c: Crypto)
      ensures Valid() && State() == InitialState(c) && crypto == c
      ensures fresh(tree) && fresh(anchors) && fresh(nullifiers)
    {
      crypto := c;
      tree := new CommitmentTree(c);
      anchors := new AnchorHistory(ANCHOR_HISTORY);
      nullifiers := new NullifierSet();
      new;
      var root := tree.CurrentRoot();
      SmallCapacity(anchors.pushed, root, anchors.capacity);
      anchors.Push(root);
    }

    /** Adds a note from outside a bundle; a full tree is an error that changes nothing. */
    method AddNote(cm: Base) returns (r: Result<nat, VerifyError>)
      requires Valid()
      modifies tree, anchors
      ensures Valid()
      ensures r == if |old(State()).leaves| < MAX_LEAVES then Ok(|old(State()).leaves|) else Err(TreeFull)
      ensures State() == if r.Ok? then Sealed(crypto, old(State()), [cm], []) else old(State())
      ensures tree.marked == if r.Ok? then old(tree.marked) + {r.value} else old(tree.marked)
    {
      var position := tree.Append(cm, true);
      if position.None? {
        return Err(TreeFull);
      }
      Seal();
      return Ok(position.value);
    }

    /** Checks a bundle without changing anything. */
    method Verify(v: Verifier, b: Bundle, sighash: bytes) returns (r: Result<(), VerifyError>)
      requires Valid() && HasCoordinates(b)
      ensures r == Verdict(v, crypto, State(), b, sighash)
    {
      if |b.actions| != ACTIONS || |b.spendAuthSigs| != ACTIONS {
        return Err(WrongActionCount);
      }
      if !tree.HasRoomFor(ACTIONS) {
        return Err(TreeFull);
      }
      var known := anchors.Contains(b.anchor);
      if !known {
        return Err(UnknownAnchor);
      }
      var nfs := Nullifiers(b.actions);
      var probe := new NullifierSet();
      var inserted := probe.InsertAll(nfs);
      if inserted.Err? {
        return Err(DoubleSpend(inserted.error));
      }
      for i := 0 to |nfs|
        invariant forall k | 0 <= k < i :: nfs[k] !in nullifiers.spent
      {
        FirstSpentFrom(nullifiers.spent, nfs, i);
        if nfs[i] in nullifiers.spent {
          return Err(DoubleSpend(nfs[i]));
        }
      }
      r := VerifyBundleCrypto(v, crypto, b, sighash);
    }

    /**
     Verifies and applies a bundle. Every check runs first: either nothing changes, or all
     nullifiers are inserted and all notes appended, and no step after the check can fail.
     */
    method Apply(v: Verifier, b: Bundle, sighash: bytes) returns (r: Result<(), VerifyError>)
      requires Valid() && HasCoordinates(b)
      modifies tree, anchors, nullifiers
      ensures Valid()
      ensures r == Verdict(v, crypto, old(State()), b, sighash)
      ensures State() == if r.Ok? then Sealed(crypto, old(State()), Commitments(b.actions), Nullifiers(b.actions)) else old(State())
      ensures tree.marked == old(tree.marked)
    {
      r := Verify(v, b, sighash);
      if r.Err? {
        return;
      }
      InsertSucceeds(v, crypto, State(), b, sighash);
      var inserted := nullifiers.InsertAll(Nullifiers(b.actions));
      assert inserted.Ok?;
      AppendNotes(b.actions);
      Seal();
    }

    /** Seals a transaction: the current root becomes an anchor. */
    method Seal()
      requires Valid()
      modifies tree`checkpoints, anchors
      ensures Valid() && anchors.pushed == old(anchors.pushed) + [Root(crypto, tree.leaves)]
    {
      tree.Checkpoint();
      var root := tree.CurrentRoot();
      SmallCapacity(anchors.pushed, root, anchors.capacity);
      anchors.Push(root);
    }

    /** Appends the created notes; with room for all of them no append fails. */
    method AppendNotes(actions: seq<Action>)
      requires Valid() && |tree.leaves| + |actions| <= MAX_LEAVES
      modifies tree
      ensures Valid() && tree.leaves == old(tree.leaves) + Commitments(actions) && tree.marked == old(tree.marked)
    {
      ghost var cms := Commitments(actions);
      for i := 0 to |actions|
        invariant Valid() && tree.leaves == old(tree.leaves) + cms[..i] && tree.marked == old(tree.marked)
      {
        var position := tree.Append(actions[i].cm, false);
        assert position.Some?;
        assert cms[..i + 1] == cms[..i] + [actions[i].cm];
      }
      assert cms[..|actions|] == cms;
    }
  }
}
