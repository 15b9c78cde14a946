/** Note encryption: the plaintext layout, and encryption as the library composes it. */
module NoteEncryption {
  import opened Field
  import opened Group
  import opened Bytes
  import opened Hashing
  import opened Notes
  import opened Bundles
  import opened Wire

  const PLAINTEXT_VERSION: byte := 1
  const FREE_MEMO_SIZE: nat := 463
  const NOTE_PLAINTEXT_SIZE: nat := 564

  /** The ciphers and encodings of the libraries. */
  datatype Suite = Suite(
    /** key from shared secret and ephemeral key */
    kdf: (Point, bytes) -> bytes,
    /** outgoing cipher key from `ovk`, value commitment, note commitment and ephemeral key */
    ock: (bytes, Point, bytes, bytes) -> bytes,
    seal: (bytes, bytes) -> bytes,
    open: (bytes, bytes) -> Option<bytes>,
    points: PointCodec,
    fromXy: (Base, Base) -> Option<Point>)

  /** Authenticated encryption adds 16 bytes and opens again; coordinates give their point back. */
  ghost predicate SuiteLaws(c: Crypto, x: Suite)
  {
    && CanonicalPoints(x.points)
    && (forall key, text :: |x.seal(key, text)| == |text| + 16 && x.open(key, x.seal(key, text)) == Some(text))
    && (forall p: Point | p != IDENTITY :: x.fromXy(c.X(p), c.Y(p)) == Some(p))
  }

  /** A note with the seed its randomness comes from. */
  datatype NoteWithSeed = NoteWithSeed(note: Note, rseed: bytes)

  /** What the transaction fixes. */
  datatype Domain = Domain(community: Base, coinCommunity: Base, rho: Base)

  /** `note_address`; a note made by `from_parts` has a point there. */
  function NoteAddress(x: Suite, n: Note): Option<Address>
  {
    var p := x.fromXy(n.pkdX, n.pkdY);
    if p.None? then None else Some(Address(LittleEndian(n.d, 11), p.value))
  }

  // ---------------------------------------------------------------- the plaintext

  function PlaintextParts(n: NoteWithSeed, memo: bytes): (s: bytes)
  {
    [PLAINTEXT_VERSION] + LittleEndian(n.note.d, 11) + LittleEndian(n.note.value, 8) + n.rseed
    + LittleEndian(n.note.tNote, 8) + [KindNumber(n.note.kind)] + LittleEndian(n.note.expiryEpoch, 8)
    + Repr(n.note.memoCm) + memo
  }

  /** Writes `s` into the buffer behind what is already there. */
  method Write(buffer: array<byte>, at: nat, s: bytes)
    requires at + |s| <= buffer.Length
    modifies buffer
    ensures buffer[..at + |s|] == old(buffer[..at]) + s
  {
    for i := 0 to |s|
      invariant buffer[..at] == old(buffer[..at])
      invariant buffer[at..at + i] == s[..i]
    {
      buffer[at + i] := s[i];
    }
    assert buffer[..at + |s|] == buffer[..at] + buffer[at..at + |s|];
  }

  /** `note_plaintext_bytes` */
  method NotePlaintextBytes(n: NoteWithSeed, memo: bytes) returns (s: bytes)
    requires |n.rseed| == 32 && |memo| == FREE_MEMO_SIZE
    ensures s == PlaintextParts(n, memo) && |s| == NOTE_PLAINTEXT_SIZE
  {
    var buffer := new byte[NOTE_PLAINTEXT_SIZE];
    Write(buffer, 0, [PLAINTEXT_VERSION]);
    Write(buffer, 1, LittleEndian(n.note.d, 11));
    Write(buffer, 12, LittleEndian(n.note.value, 8));
    Write(buffer, 20, n.rseed);
    Write(buffer, 52, LittleEndian(n.note.tNote, 8));
    Write(buffer, 60, [KindNumber(n.note.kind)]);
    Write(buffer, 61, LittleEndian(n.note.expiryEpoch, 8));
    Write(buffer, 69, Repr(n.note.memoCm));
    Write(buffer, 101, memo);
    s := buffer[..];
    assert s == buffer[..NOTE_PLAINTEXT_SIZE];
  }

  function DiversifierOf(s: bytes): Option<Diversifier>
  {
    if |s| < NOTE_PLAINTEXT_SIZE || s[0] != PLAINTEXT_VERSION then None
    else
      var d: Diversifier := s[1..12];
      Some(d)
  }

  /** `parse`: rebuilds a note from a plaintext and the transmission key of its address. */
  function Parse(c: Crypto, domain: Domain, s: bytes, pkD: Point): Option<(NoteWithSeed, Address)>
  {
    var d := DiversifierOf(s);
    if d.None? then None
    else
      var value, rseed, tNote := ReadU64(s[12..20]), s[20..52], ReadU64(s[52..60]);
      var expiry, memoCm := ReadU64(s[61..69]), BaseFromBytes(s[69..101]);
      if s[60] > 1 || memoCm.None? then None
      else
        var address := Address(d.value, pkD);
        var note := FromParts(c, domain.community, domain.coinCommunity, value, tNote,
          if s[60] == 0 then Normal else Deferred, expiry, address, domain.rho, memoCm.value, rseed);
        if note.Err? then None else Some((NoteWithSeed(note.value, rseed), address))
  }

  /** `u64::from_le_bytes` of eight bytes. */
  function ReadU64(s: bytes): u64
    requires |s| == 8
  {
    LittleEndianWritten(s);
    Pow256Values();
    FromLittleEndian(s)
  }

  function ExtractMemo(s: bytes): bytes
    requires |s| == NOTE_PLAINTEXT_SIZE
  {
    s[101..]
  }

  /** The last part of what comes first. */
  lemma LastPart(s: bytes, n: nat, front: bytes, part: bytes)
    requires n <= |s| && s[..n] == front + part
    ensures |front| <= n && s[..|front|] == front && s[|front|..n] == part
  {
    assert s[..|front|] == s[..n][..|front|] && s[|front|..n] == s[..n][|front|..];
  }

  lemma PlaintextLayout(n: NoteWithSeed, memo: bytes)
    requires |n.rseed| == 32 && |memo| == FREE_MEMO_SIZE
    ensures var s := PlaintextParts(n, memo);
      && |s| == NOTE_PLAINTEXT_SIZE && s[0] == PLAINTEXT_VERSION && s[1..12] == LittleEndian(n.note.d, 11)
      && s[12..20] == LittleEndian(n.note.value, 8) && s[20..52] == n.rseed && s[52..60] == LittleEndian(n.note.tNote, 8)
      && s[60] == KindNumber(n.note.kind) && s[61..69] == LittleEndian(n.note.expiryEpoch, 8)
      && s[69..101] == Repr(n.note.memoCm) && s[101..] == memo
  {
    var s := PlaintextParts(n, memo);
    var d, value, tNote := LittleEndian(n.note.d, 11), LittleEndian(n.note.value, 8), LittleEndian(n.note.tNote, 8);
    var kind, expiry, memoCm := [KindNumber(n.note.kind)], LittleEndian(n.note.expiryEpoch, 8), Repr(n.note.memoCm);
    var p1 := [PLAINTEXT_VERSION] + d;
    var p2 := p1 + value;
    var p3 := p2 + n.rseed;
    var p4 := p3 + tNote;
    var p5 := p4 + kind;
    var p6 := p5 + expiry;
    var p7 := p6 + memoCm;
    assert s == p7 + memo && s[..564] == s;
    LastPart(s, 564, p7, memo);
    LastPart(s, 101, p6, memoCm);
    LastPart(s, 69, p5, expiry);
    LastPart(s, 61, p4, kind);
    LastPart(s, 60, p3, tNote);
    LastPart(s, 52, p2, n.rseed);
    LastPart(s, 20, p1, value);
    LastPart(s, 12, [PLAINTEXT_VERSION], d);
    assert s[60..61][0] == s[60] && s[..1][0] == s[0];
  }

  lemma ReadWrittenU64(v: u64)
    ensures ReadU64(LittleEndian(v, 8)) == v
  {
    Pow256Values();
    LittleEndianRead(v, 8);
  }

  /** The note `from_parts` makes of an address under a domain. */
  ghost predicate MadeFor(c: Crypto, domain: Domain, n: NoteWithSeed, address: Address)
  {
    && |n.rseed| == 32
    && FromParts(c, domain.community, domain.coinCommunity, n.note.value, n.note.tNote, n.note.kind,
                 n.note.expiryEpoch, address, domain.rho, n.note.memoCm, n.rseed) == Ok(n.note)
  }

  /**
   The plaintext codec: whoever parses the plaintext with the note's transmission key gets the
   identical note, seed and address, and the memo.
   */
  lemma PlaintextBack(c: Crypto, domain: Domain, n: NoteWithSeed, address: Address, memo: bytes)
    requires MadeFor(c, domain, n, address) && |memo| == FREE_MEMO_SIZE
    ensures Parse(c, domain, PlaintextParts(n, memo), address.pkD) == Some((n, address))
    ensures |PlaintextParts(n, memo)| == NOTE_PLAINTEXT_SIZE && ExtractMemo(PlaintextParts(n, memo)) == memo
  {
    PlaintextLayout(n, memo);
    ReadWrittenU64(n.note.value);
    ReadWrittenU64(n.note.tNote);
    ReadWrittenU64(n.note.expiryEpoch);
    BaseCodec(n.note.memoCm, Repr(n.note.memoCm));
    LittleEndianWritten(address.d);
  }

  /** A plaintext tells everything about the opening it was made from. */
  lemma PlaintextInjective(c: Crypto, domain: Domain, m: NoteWithSeed, n: NoteWithSeed, a: Address, b: Address, memo: bytes, memo': bytes)
    requires MadeFor(c, domain, m, a) && MadeFor(c, domain, n, b) && a.pkD == b.pkD
    requires |memo| == FREE_MEMO_SIZE && |memo'| == FREE_MEMO_SIZE
    requires PlaintextParts(m, memo) == PlaintextParts(n, memo')
    ensures m == n && a == b && memo == memo'
  {
    PlaintextBack(c, domain, m, a, memo);
    PlaintextBack(c, domain, n, b, memo');
  }

  // ---------------------------------------------------------------- encryption

  /** The 64 bytes of the outgoing plaintext. */
  function OutgoingPlaintext(x: Suite, pkD: Point, esk: Scalar): bytes { x.points.encode(pkD) + Repr(esk) }

  /** Key and plaintext of the outgoing ciphertext when there is no outgoing viewing key. */
  datatype Noise = Noise(key: bytes, text: bytes)

  /** `encrypt`, for the address `note_address` finds. */
  function Encrypt(c: Crypto, x: Suite, n: NoteWithSeed, address: Address, memo: bytes, ovk: Option<bytes>, cv: Point, noise: Noise): EncryptedNote
  {
    var esk := c.esk(n.rseed, n.note.rho);
    var epk := x.points.encode(Mul(esk, DiversifyHash(c, address.d)));
    var cm := Commitment(c, n.note);
    var out := if ovk.None? then x.seal(noise.key, noise.text)
               else x.seal(x.ock(ovk.value, cv, Repr(cm), epk), OutgoingPlaintext(x, address.pkD, esk));
    EncryptedNote(epk, cm, x.seal(x.kdf(Mul(esk, address.pkD), epk), PlaintextParts(n, memo)), out)
  }

  /** A note made by `from_parts` carries its address. */
  lemma AddressBack(c: Crypto, x: Suite, domain: Domain, n: NoteWithSeed, address: Address)
    requires SuiteLaws(c, x) && MadeFor(c, domain, n, address)
    ensures NoteAddress(x, n.note) == Some(address)
  {
    LittleEndianWritten(address.d);
  }

  lemma SealInjective(c: Crypto, x: Suite, key: bytes, s: bytes, t: bytes)
    requires SuiteLaws(c, x) && x.seal(key, s) == x.seal(key, t)
    ensures s == t
  {
    assert x.open(key, x.seal(key, s)) == Some(s) && x.open(key, x.seal(key, t)) == Some(t);
  }

  lemma OutgoingInjective(c: Crypto, x: Suite, p: Point, e: Scalar, q: Point, f: Scalar)
    requires SuiteLaws(c, x) && OutgoingPlaintext(x, p, e) == OutgoingPlaintext(x, q, f)
    ensures p == q && e == f
  {
    var s, t := OutgoingPlaintext(x, p, e), OutgoingPlaintext(x, q, f);
    assert s[..32] == x.points.encode(p) && t[..32] == x.points.encode(q);
    assert s[32..] == Repr(e) && t[32..] == Repr(f);
    assert x.points.decode(s[..32]) == Some(p) && x.points.decode(t[..32]) == Some(q);
    ScalarCodec(e, s[32..]);
    ScalarCodec(f, t[32..]);
  }

  /**
   Ciphertexts under one outgoing viewing key determine what was encrypted: the outgoing one gives
   `pk_d` and `esk`, these give the key of the other, and that gives the note and the memo.
   */
  lemma CiphertextsDetermine(c: Crypto, x: Suite, domain: Domain, m: NoteWithSeed, n: NoteWithSeed, a: Address, b: Address,
      memo: bytes, memo': bytes, ovk: bytes, cv: Point, noise: Noise)
    requires SuiteLaws(c, x) && MadeFor(c, domain, m, a) && MadeFor(c, domain, n, b)
    requires |memo| == FREE_MEMO_SIZE && |memo'| == FREE_MEMO_SIZE
    requires Encrypt(c, x, m, a, memo, Some(ovk), cv, noise) == Encrypt(c, x, n, b, memo', Some(ovk), cv, noise)
    ensures m == n && a == b && memo == memo'
  {
    var e, f := c.esk(m.rseed, m.note.rho), c.esk(n.rseed, n.note.rho);
    var epk := Encrypt(c, x, m, a, memo, Some(ovk), cv, noise).epkBytes;
    var ock := x.ock(ovk, cv, Repr(Commitment(c, m.note)), epk);
    SealInjective(c, x, ock, OutgoingPlaintext(x, a.pkD, e), OutgoingPlaintext(x, b.pkD, f));
    OutgoingInjective(c, x, a.pkD, e, b.pkD, f);
    SealInjective(c, x, x.kdf(Mul(e, a.pkD), epk), PlaintextParts(m, memo), PlaintextParts(n, memo'));
    PlaintextInjective(c, domain, m, n, a, b, memo, memo');
  }

  /** `try_note_decryption`: open with `[ivk] epk`, parse, and check commitment and ephemeral key. */
  function Decrypt(c: Crypto, x: Suite, domain: Domain, ivk: Scalar, e: EncryptedNote): Option<(NoteWithSeed, Address, bytes)>
  {
    var epk := x.points.decode(e.epkBytes);
    if epk.None? || epk.value == IDENTITY then None
    else
      var text := x.open(x.kdf(Mul(ivk, epk.value), e.epkBytes), e.encCiphertext);
      if text.None? || |text.value| != NOTE_PLAINTEXT_SIZE || text.value[0] != PLAINTEXT_VERSION then None
      else
        var parsed := Parse(c, domain, text.value, Mul(ivk, DiversifyHash(c, text.value[1..12])));
        if parsed.None? then None
        else
          var (n, address) := parsed.value;
          if Commitment(c, n.note) != e.cm
             || x.points.encode(Mul(c.esk(n.rseed, n.note.rho), DiversifyHash(c, address.d))) != e.epkBytes then None
          else Some((n, address, ExtractMemo(text.value)))
  }

  /** The recipient rebuilds exactly the note the sender committed to. */
  lemma RecipientDecrypts(c: Crypto, x: Suite, domain: Domain, fvk: FullViewingKey, n: NoteWithSeed, address: Address,
      memo: bytes, ovk: Option<bytes>, cv: Point, noise: Noise)
    requires SuiteLaws(c, x) && MadeFor(c, domain, n, address) && Owns(c, fvk, address) && |memo| == FREE_MEMO_SIZE
    requires Mul(c.esk(n.rseed, n.note.rho), DiversifyHash(c, address.d)) != IDENTITY
    ensures Decrypt(c, x, domain, fvk.ivk, Encrypt(c, x, n, address, memo, ovk, cv, noise)) == Some((n, address, memo))
  {
    var esk := c.esk(n.rseed, n.note.rho);
    PlaintextBack(c, domain, n, address, memo);
    PlaintextLayout(n, memo);
    LittleEndianWritten(address.d);
    MulCommutes(fvk.ivk, esk, DiversifyHash(c, address.d));
  }
}
