/** The ledger state of one community: commitment tree, recent anchors, spent nullifiers. */
module TreeState {
  import opened Group
  import opened Bytes
  import opened Hashing
  import opened Merkle
  import opened Notes

  type u32 = x: nat | x < 0x1_0000_0000

  /** The last `n` elements. */
  function Window(s: seq<Base>, n: nat): seq<Base>
  {
    if |s| <= n then s else s[|s| - n..]
  }

  lemma WindowPush(s: seq<Base>, x: Base, n: nat)
    requires n > 0
    ensures var w := Window(s, n); Window(s + [x], n) == (if |w| == n then w[1..] else w) + [x] && |w| <= n
  {}

  /** `counts` is the multiset of the deque, without a zero entry. */
  ghost predicate CountsOf(counts: map<Base, u32>, roots: seq<Base>)
  {
    forall r: Base :: (r in counts <==> r in roots) && (r in counts ==> counts[r] == multiset(roots)[r])
  }

  /** The roots a transaction may use as its anchor. */
  class AnchorHistory {
    var roots: seq<Base>
    var counts: map<Base, u32>
    const capacity: nat
    /** every root that was ever pushed */
    ghost var pushed: seq<Base>

    ghost predicate Valid()
      reads this
    {
      0 < capacity && roots == Window(pushed, capacity) && CountsOf(counts, roots)
    }

    constructor (capacity: nat)
      requires 0 < capacity
      ensures Valid() && this.capacity == capacity && pushed == []
    {
      this.roots, this.counts, this.capacity := [], map[], capacity;
      this.pushed := [];
    }

    /** A root may not be among the anchors 2^32 times, its count is a `u32`. */
    method Push(root: Base)
      requires Valid() && multiset(Window(pushed + [root], capacity))[root] < 0x1_0000_0000
      modifies this
      ensures Valid() && pushed == old(pushed) + [root]
    {
      WindowPush(pushed, root, capacity);
      if |roots| == capacity {
        CountsPop(counts, roots);
        var oldest := roots[0];
        roots := roots[1..];
        if oldest in counts {
          var count := counts[oldest] - 1;
          counts := counts[oldest := count];
          if count == 0 {
            counts := counts - {oldest};
          }
        }
      }
      CountsPush(counts, roots, root);
      roots := roots + [root];
      counts := counts[root := (if root in counts then counts[root] else 0) + 1];
      pushed := pushed + [root];
    }

    method Contains(root: Base) returns (found: bool)
      requires Valid()
      ensures found <==> root in Window(pushed, capacity)
    {
      found := root in counts;
    }
  }

  lemma CountsPop(counts: map<Base, u32>, roots: seq<Base>)
    requires CountsOf(counts, roots) && roots != []
    ensures var r := roots[0]; r in counts && counts[r] > 0 && CountsOf(
      if counts[r] == 1 then counts[r := 0] - {r} else counts[r := counts[r] - 1], roots[1..])
  {
    assert roots == [roots[0]] + roots[1..];
  }

  lemma CountsPush(counts: map<Base, u32>, roots: seq<Base>, root: Base)
    requires CountsOf(counts, roots) && multiset(roots + [root])[root] < 0x1_0000_0000
    ensures root in counts ==> counts[root] < 0xffff_ffff
    ensures CountsOf(counts[root := (if root in counts then counts[root] else 0) + 1], roots + [root])
  {}

  /** With a capacity below 2^32 no push can overflow a count. */
  lemma SmallCapacity(pushed: seq<Base>, root: Base, capacity: nat)
    requires 0 < capacity < 0x1_0000_0000
    ensures multiset(Window(pushed + [root], capacity))[root] < 0x1_0000_0000
  {
    CountBound(Window(pushed + [root], capacity), root);
  }

  lemma {:induction false} CountBound(roots: seq<Base>, root: Base)
    ensures multiset(roots)[root] <= |roots|
  {
    if roots != [] {
      assert roots == [roots[0]] + roots[1..];
      CountBound(roots[1..], root);
    }
  }

  // ---------------------------------------------------------------- nullifiers

  /** The first nullifier that is spent already or repeats an earlier one of the list. */
  function FirstConflict(spent: set<Base>, nfs: seq<Base>): Option<Base>
    decreases |nfs|
  {
    if nfs == [] then None
    else if nfs[0] in spent then Some(nfs[0])
    else FirstConflict(spent + {nfs[0]}, nfs[1..])
  }

  function SetOf(nfs: seq<Base>): set<Base> { set nf | nf in nfs }

  predicate Distinct(nfs: seq<Base>)
  {
    forall i, j | 0 <= i < j < |nfs| :: nfs[i] != nfs[j]
  }

  /** A list has no conflict exactly when its elements are unspent and pairwise distinct. */
  lemma {:induction false} ConflictFree(spent: set<Base>, nfs: seq<Base>)
    ensures FirstConflict(spent, nfs) == None <==> Distinct(nfs) && forall i | 0 <= i < |nfs| :: nfs[i] !in spent
    decreases |nfs|
  {
    if nfs != [] {
      ConflictFree(spent + {nfs[0]}, nfs[1..]);
      if Distinct(nfs) && forall i | 0 <= i < |nfs| :: nfs[i] !in spent {
        forall i | 0 <= i < |nfs| - 1 ensures nfs[1..][i] !in spent + {nfs[0]} {
          assert nfs[1..][i] == nfs[i + 1];
        }
      }
      if FirstConflict(spent, nfs) == None {
        forall i, j | 0 <= i < j < |nfs| ensures nfs[i] != nfs[j] {
          assert nfs[j] == nfs[1..][j - 1];
          assert i > 0 ==> nfs[i] == nfs[1..][i - 1];
        }
        forall i | 0 <= i < |nfs| ensures nfs[i] !in spent {
          assert i > 0 ==> nfs[i] == nfs[1..][i - 1];
        }
      }
    }
  }

  lemma {:induction false} ConflictSplit(spent: set<Base>, nfs: seq<Base>, i: nat)
    requires i <= |nfs| && FirstConflict(spent, nfs[..i]) == None
    ensures FirstConflict(spent, nfs) == FirstConflict(spent + SetOf(nfs[..i]), nfs[i..])
    decreases i
  {
    if i > 0 {
      assert nfs[..i][0] == nfs[0] && nfs[..i][1..] == nfs[1..][..i - 1];
      ConflictSplit(spent + {nfs[0]}, nfs[1..], i - 1);
      assert spent + {nfs[0]} + SetOf(nfs[1..][..i - 1]) == spent + SetOf(nfs[..i]);
      assert nfs[1..][i - 1..] == nfs[i..];
    } else {
      assert spent + SetOf(nfs[..0]) == spent;
    }
  }

  class NullifierSet {
    var spent: set<Base>

    constructor ()
      ensures spent == {}
    {
      spent := {};
    }

    /** All or none: on a conflict nothing was added. */
    method InsertAll(nfs: seq<Base>) returns (r: Result<(), Base>)
      modifies this
      ensures r == (match FirstConflict(old(spent), nfs) case None => Ok(()) case Some(nf) => Err(nf))
      ensures spent == if r.Ok? then old(spent) + SetOf(nfs) else old(spent)
    {
      var added: set<Base> := {};
      for i := 0 to |nfs|
        invariant spent == old(spent) && added == SetOf(nfs[..i]) && FirstConflict(spent, nfs[..i]) == None
      {
        ConflictSplit(spent, nfs, i);
        if nfs[i] in spent || nfs[i] in added {
          return Err(nfs[i]);
        }
        assert nfs[..i + 1][..i] == nfs[..i] && nfs[..i + 1][i..] == [nfs[i]];
        ConflictSplit(spent, nfs[..i + 1], i);
        added := added + {nfs[i]};
      }
      assert nfs[..|nfs|] == nfs;
      spent := spent + added;
      return Ok(());
    }
  }

  // ---------------------------------------------------------------- the tree

  /** The note commitment tree, as the list of its leaves. */
  class CommitmentTree {
    const crypto: Crypto
    var leaves: seq<Base>
    /** the positions whose witnesses are kept */
    var marked: set<nat>
    var checkpoints: nat

    ghost predicate Valid()
      reads this
    {
      |leaves| <= MAX_LEAVES && forall p | p in marked :: p < |leaves|
    }

    constructor (crypto: Crypto)
      ensures Valid() && leaves == [] && marked == {} && this.crypto == crypto
    {
      this.crypto, leaves, marked, checkpoints := crypto, [], {}, 0;
    }

    predicate HasRoomFor(notes: nat)
      reads this
    {
      |leaves| + notes <= MAX_LEAVES
    }

    /** Appends a commitment, marked or not; `None`, and no change, when the tree is full. */
    method Append(cm: Base, keepWitness: bool) returns (position: Option<nat>)
      requires Valid()
      modifies this`leaves, this`marked
      ensures Valid()
      ensures position == if |old(leaves)| < MAX_LEAVES then Some(|old(leaves)|) else None
      ensures leaves == if position.Some? then old(leaves) + [cm] else old(leaves)
      ensures marked == if position.Some? && keepWitness then old(marked) + {position.value} else old(marked)
    {
      if !HasRoomFor(1) {
        return None;
      }
      leaves := leaves + [cm];
      if keepWitness {
        marked := marked + {|leaves| - 1};
      }
      return Some(|leaves| - 1);
    }

    /** `witness`: the siblings of a marked leaf, which fold to the current root. */
    function Witness(position: nat): (path: Option<seq<Base>>)
      requires Valid()
      reads this
      ensures path.Some? <==> position in marked
      ensures path.Some? ==> position < |leaves| && |path.value| == MERKLE_DEPTH
      ensures path.Some? ==> MerkleRoot(crypto, leaves[position], position, path.value) == CurrentRoot()
    {
      if position !in marked then None
      else
        PathFolds(crypto, leaves, position, 0);
        Some(PathOf(crypto, leaves, position))
    }

    function CurrentRoot(): Base
      reads this
    {
      Root(crypto, leaves)
    }

    /** Seals the state after a transaction. */
    method Checkpoint()
      modifies this`checkpoints
      ensures checkpoints == old(checkpoints) + 1
    {
      checkpoints := checkpoints + 1;
    }
  }
}
