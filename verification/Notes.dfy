/** Keys, addresses and notes: the native side of what the circuit constrains. */
module Notes {
  import opened Widths
  import opened Field
  import opened Group
  import opened Bytes
  import opened Hashing


  type Diversifier = s: bytes | |s| == 11 witness [0, 0, 0, 0, 0, 0, 0, 0, 0, 0, 0]
  type u64 = x: nat | x < 0x1_0000_0000_0000_0000

  datatype Result<T, E> = Ok(value: T) | Err(error: E)

  /** `collect` into a result: all values, or the first error. */
  function Collect<T, E>(rs: seq<Result<T, E>>): (r: Result<seq<T>, E>)
    ensures r.Ok? ==> |r.value| == |rs|
  {
    if rs == [] then Ok([])
    else if rs[0].Err? then Err(rs[0].error)
    else
      var others := Collect(rs[1..]);
      if others.Err? then Err(others.error) else Ok([rs[0].value] + others.value)
  }

  lemma {:induction false} CollectExact<T, E>(rs: seq<Result<T, E>>, vs: seq<T>)
    ensures Collect(rs) == Ok(vs) <==> |rs| == |vs| && forall i | 0 <= i < |rs| :: rs[i] == Ok(vs[i])
  {
    if |rs| == |vs| && rs != [] {
      CollectExact(rs[1..], vs[1..]);
      assert vs == [vs[0]] + vs[1..];
      assert forall i | 0 < i < |rs| :: rs[i] == rs[1..][i - 1] && vs[i] == vs[1..][i - 1];
    }
  }

  datatype NoteError = ValueTooLarge | TimestampTooLarge | ExpiryTooLarge | InvalidAddress

  datatype NoteKind = Normal | Deferred

  function KindNumber(kind: NoteKind): nat { if kind.Normal? then 0 else 1 }

  // ---------------------------------------------------------------- keys

  datatype Address = Address(d: Diversifier, pkD: Point)

  datatype FullViewingKey = FullViewingKey(ak: Point, nk: Base, rivk: Base, ivk: Scalar, ovk: bytes)

  /** `diversify_hash`: never the identity. */
  function DiversifyHash(c: Crypto, d: Diversifier): (g: Point)
    ensures g != IDENTITY
  {
    var p := c.hashToCurve(d);
    if p == IDENTITY then 1 else p
  }

  /** `commit_ivk`: refused for an `ak` without coordinates and for the key 0. */
  function CommitIvk(c: Crypto, ak: Point, nk: Base, rivk: Base): Option<Scalar>
  {
    if ak == IDENTITY then None
    else
      var ivk := c.Hash3(c.X(ak), nk, rivk);
      if ivk == 0 then None else Some(ivk)
  }

  /** What every constructed or decoded viewing key satisfies: `ivk` is derived from the rest. */
  predicate ValidKey(c: Crypto, fvk: FullViewingKey)
  {
    CommitIvk(c, fvk.ak, fvk.nk, fvk.rivk) == Some(fvk.ivk) && |fvk.ovk| == 32
  }

  function AddressOf(c: Crypto, fvk: FullViewingKey, d: Diversifier): Address
  {
    Address(d, Mul(fvk.ivk, DiversifyHash(c, d)))
  }

  predicate Owns(c: Crypto, fvk: FullViewingKey, address: Address) { AddressOf(c, fvk, address.d) == address }

  /** One address, one key: whoever owns it has the same `ivk`, the same `nk` and the same `ak_x`. */
  lemma AddressDeterminesKey(c: Crypto, known: Known, a: FullViewingKey, b: FullViewingKey, address: Address)
    requires CollisionFree(c, known) && NoScalarZeroDivisors() && ValidKey(c, a) && ValidKey(c, b)
    requires [c.X(a.ak), a.nk, a.rivk] in known.poseidon && [c.X(b.ak), b.nk, b.rivk] in known.poseidon
    requires Owns(c, a, address) && Owns(c, b, address)
    ensures a.ivk == b.ivk && a.nk == b.nk && a.rivk == b.rivk && c.X(a.ak) == c.X(b.ak)
  {
    MulInjective(a.ivk, b.ivk, DiversifyHash(c, address.d));
    SameTriple(c, known, c.X(a.ak), a.nk, a.rivk, c.X(b.ak), b.nk, b.rivk);
  }

  // ---------------------------------------------------------------- notes

  datatype Note = Note(
    community: Base, coinCommunity: Base, value: u64, tNote: u64, kind: NoteKind, expiryEpoch: u64, d: nat,
    gdX: Base, gdY: Base, pkdX: Base, pkdY: Base, rho: Base, psi: Base, memoCm: Base, rcm: Base)

  function PackAmount(value: nat, tNote: nat): Base { Reduce(value + tNote * 0x8000_0000_0000_0000) }

  function PackMeta(kind: nat, expiry: nat): Base { Reduce(kind + expiry * 2) }

  function CommitElements(n: Note): (s: seq<Base>)
    ensures |s| == COMMIT_ELEMENTS
  {
    [n.community, n.coinCommunity, PackAmount(n.value, n.tNote), PackMeta(KindNumber(n.kind), n.expiryEpoch),
     n.gdX, n.gdY, n.pkdX, n.pkdY, n.rho, n.psi, n.memoCm, n.rcm]
  }

  function Commitment(c: Crypto, n: Note): Base { c.poseidon(CommitElements(n)) }

  function Nullifier(c: Crypto, nk: Base, rho: Base, cm: Base): Base { c.Hash3(nk, rho, cm) }

  /** The widths the circuit can open. */
  predicate InWidths(n: Note)
  {
    n.value < VALUE_LIMIT && n.tNote < TIMESTAMP_LIMIT && n.expiryEpoch < EXPIRY_LIMIT
  }

  function FromParts(c: Crypto, community: Base, coinCommunity: Base, value: u64, tNote: u64, kind: NoteKind,
      expiry: u64, address: Address, rho: Base, memoCm: Base, rseed: bytes): (r: Result<Note, NoteError>)
    ensures r.Ok? <==> value < VALUE_LIMIT && tNote < TIMESTAMP_LIMIT && expiry < EXPIRY_LIMIT && address.pkD != IDENTITY
    ensures r.Ok? ==> InWidths(r.value)
  {
    if value >= VALUE_LIMIT then Err(ValueTooLarge)
    else if tNote >= TIMESTAMP_LIMIT then Err(TimestampTooLarge)
    else if expiry >= EXPIRY_LIMIT then Err(ExpiryTooLarge)
    else if address.pkD == IDENTITY then Err(InvalidAddress)
    else
      var g := DiversifyHash(c, address.d);
      Ok(Note(community, coinCommunity, value, tNote, kind, expiry, FromLittleEndian(address.d),
              c.X(g), c.Y(g), c.X(address.pkD), c.Y(address.pkD), rho, c.psi(rseed, rho), memoCm, c.rcm(rseed, rho)))
  }

  /** Packed parts of exact width can be taken apart again. */
  lemma PackExact(value: nat, tNote: nat, kind: nat, expiry: nat)
    requires value < VALUE_LIMIT && tNote < TIMESTAMP_LIMIT && kind <= 1 && expiry < EXPIRY_LIMIT
    ensures PackAmount(value, tNote) == value + tNote * 0x8000_0000_0000_0000
    ensures PackAmount(value, tNote) % 0x8000_0000_0000_0000 == value && PackAmount(value, tNote) / 0x8000_0000_0000_0000 == tNote
    ensures PackMeta(kind, expiry) == kind + expiry * 2
    ensures PackMeta(kind, expiry) % 2 == kind && PackMeta(kind, expiry) / 2 == expiry
  {
    ReduceSmall(value + tNote * 0x8000_0000_0000_0000);
    ReduceSmall(kind + expiry * 2);
  }

  /** Two notes hash the same elements only if they agree in everything but the diversifier. */
  lemma ElementsInjective(m: Note, n: Note)
    requires InWidths(m) && InWidths(n) && CommitElements(m) == CommitElements(n)
    ensures m.(d := n.d) == n
  {
    var s, t := CommitElements(m), CommitElements(n);
    assert s[0] == t[0] && s[1] == t[1] && s[2] == t[2] && s[3] == t[3] && s[4] == t[4] && s[5] == t[5];
    assert s[6] == t[6] && s[7] == t[7] && s[8] == t[8] && s[9] == t[9] && s[10] == t[10] && s[11] == t[11];
    PackExact(m.value, m.tNote, KindNumber(m.kind), m.expiryEpoch);
    PackExact(n.value, n.tNote, KindNumber(n.kind), n.expiryEpoch);
  }

  /** The commitment binds the note. */
  lemma CommitmentBinds(c: Crypto, known: Known, m: Note, n: Note)
    requires CollisionFree(c, known) && CommitElements(m) in known.poseidon && CommitElements(n) in known.poseidon
    requires InWidths(m) && InWidths(n) && Commitment(c, m) == Commitment(c, n)
    ensures m.(d := n.d) == n
  {
    ElementsInjective(m, n);
  }
}
