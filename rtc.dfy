/** The record layer of the BitSeal RTC session (gocode/rtc/rtc.go): session
    key derivation, the frame a record is sealed into, and the checks a
    received frame goes through before its plaintext is released.

    A frame is
      4-byte big-endian length | flags | 8-byte big-endian sequence number | ciphertext | 16-byte tag
    where the length counts everything after itself. The ciphertext and tag
    come from AES-GCM under the session key, with nonce `salt ++ seq` and
    additional data `flags ++ seq`.

    The cryptographic primitives are not modelled: SHA-256 and the
    key-agreement result are parameters, and a `cipher.AEAD` is a pair of
    functions that is only assumed to obey the two laws in `GcmLaws`. */
module Rtc {
  import opened Wrappers
  import opened Bytes
  import opened ReplayWindow

  const TagSize: nat := 16
  /** Length field, flags byte and sequence number. */
  const HeaderSize: nat := 4 + 1 + 8
  /** The shortest frame `DecodeRecord` looks into: a header and a tag. */
  const MinFrameSize: nat := HeaderSize + TagSize

  // ---------------------------------------------------------------------
  // Key derivation (rtc.go lines 101-106)

  /** What `deriveKey` feeds to SHA-256: the shared secret, then saltA, then saltB. */
  function KeyMaterial(shared: seq<byte>, saltA: seq<byte>, saltB: seq<byte>): seq<byte>
  {
    shared + saltA + saltB
  }

  /** `deriveKey`, with SHA-256 as a parameter. */
  function DeriveKey(sha256: seq<byte> -> seq<byte>, shared: seq<byte>, saltA: seq<byte>, saltB: seq<byte>): seq<byte>
  {
    sha256(KeyMaterial(shared, saltA, saltB))
  }

  /** The hashed string determines its three parts once their lengths are
      fixed: the key binds exactly `shared ++ saltA ++ saltB`, in that order. */
  lemma KeyMaterialSplits(shared1: seq<byte>, saltA1: seq<byte>, saltB1: seq<byte>,
                          shared2: seq<byte>, saltA2: seq<byte>, saltB2: seq<byte>)
    requires |shared1| == |shared2| && |saltA1| == |saltA2|
    ensures KeyMaterial(shared1, saltA1, saltB1) == KeyMaterial(shared2, saltA2, saltB2)
        <==> shared1 == shared2 && saltA1 == saltA2 && saltB1 == saltB2
  {
    var m1 := KeyMaterial(shared1, saltA1, saltB1);
    var m2 := KeyMaterial(shared2, saltA2, saltB2);
    if m1 == m2 {
      var n, a := |shared1|, |saltA1|;
      assert shared1 == m1[..n] && shared2 == m2[..n];
      assert saltA1 == m1[n..n + a] && saltA2 == m2[n..n + a];
      assert saltB1 == m1[n + a..] && saltB2 == m2[n + a..];
    }
  }

  /** `NewSession(self, peer, selfSalt, peerSalt)` hashes the salts in the
      order given, so two peers that each put their own salt first hash the
      same string only when the two salts are equal: both peers must pass the
      salts in one agreed order. */
  lemma SaltOrderMatters(shared: seq<byte>, saltA: seq<byte>, saltB: seq<byte>)
    requires |saltA| == |saltB|
    ensures KeyMaterial(shared, saltA, saltB) == KeyMaterial(shared, saltB, saltA) <==> saltA == saltB
  {
    KeyMaterialSplits(shared, saltA, saltB, shared, saltB, saltA);
  }

  // ---------------------------------------------------------------------
  // The AEAD

  /** A `cipher.AEAD` bound to one key: `Seal(nonce, plaintext, ad)` returns
      ciphertext followed by the tag, `Open(nonce, sealed, ad)` the plaintext
      or, on an authentication failure, nothing. */
  datatype Aead = Aead(
    seal: (seq<byte>, seq<byte>, seq<byte>) -> seq<byte>,
    open: (seq<byte>, seq<byte>, seq<byte>) -> Option<seq<byte>>)

  /** The two properties of AES-GCM (NIST SP 800-38D) the record layer relies
      on: Seal appends a 16-byte tag to a ciphertext as long as the plaintext,
      and Open inverts Seal under the same nonce and additional data. */
  ghost predicate GcmLaws(a: Aead)
  {
    forall n, p, ad :: |a.seal(n, p, ad)| == |p| + TagSize && a.open(n, a.seal(n, p, ad), ad) == Some(p)
  }

  /** An AEAD obeying `GcmLaws`; the witness shows that the laws can be met. */
  type Gcm = a: Aead | GcmLaws(a)
    witness Aead((n: seq<byte>, p: seq<byte>, ad: seq<byte>) => p + seq(TagSize, i => 0),
                 (n: seq<byte>, c: seq<byte>, ad: seq<byte>) =>
                   if |c| >= TagSize then Some(c[..|c| - TagSize]) else None)

  // ---------------------------------------------------------------------
  // Frames

  /** The fields of a frame. */
  datatype Record = Record(flags: byte, seqNo: u64, body: seq<byte>, tag: seq<byte>)

  /** The GCM nonce: the sender's salt, then the big-endian sequence number. */
  function Nonce(salt: seq<byte>, seqNo: u64): seq<byte>
  {
    salt + PutUint64(seqNo)
  }

  /** The additional data: the flags byte, then the big-endian sequence number. */
  function AdditionalData(flags: byte, seqNo: u64): seq<byte>
  {
    [flags] + PutUint64(seqNo)
  }

  /** The length field `uint32(1 + 8 + len(ciphertext) + 16)`, which wraps at 2^32. */
  function LengthField(bodyLength: nat): u32
  {
    (1 + 8 + bodyLength + TagSize) % TwoTo32
  }

  /** Whether a body of `n` bytes leaves the frame length below 2^32, so that
      `LengthField` does not wrap. */
  predicate LengthFits(n: nat)
  {
    HeaderSize - 4 + n + TagSize < TwoTo32
  }

  /** The bytes of a frame, in the order `EncodeRecord` writes them. */
  function Layout(r: Record): seq<byte>
  {
    PutUint32(LengthField(|r.body|)) + [r.flags] + PutUint64(r.seqNo) + r.body + r.tag
  }

  /** The record `EncodeRecord` seals: the AEAD output split into the
      ciphertext and the trailing 16-byte tag. */
  function SealRecord(aead: Gcm, salt: seq<byte>, seqNo: u64, flags: byte, plaintext: seq<byte>): (r: Record)
    ensures r.flags == flags && r.seqNo == seqNo
    ensures |r.body| == |plaintext| && |r.tag| == TagSize
    ensures r.body + r.tag == aead.seal(Nonce(salt, seqNo), plaintext, AdditionalData(flags, seqNo))
  {
    var sealed := aead.seal(Nonce(salt, seqNo), plaintext, AdditionalData(flags, seqNo));
    Record(flags, seqNo, sealed[..|sealed| - TagSize], sealed[|sealed| - TagSize..])
  }

  datatype DecodeError = FrameTooShort | LengthMismatch | ReplayOrOld | AuthFailed

  datatype Result<T> = Ok(value: T) | Err(error: DecodeError)

  /** The header checks of `DecodeRecord` (lines 166-172) and the fields it
      reads: too short, then a length field that is not the frame length
      minus four, are refused; otherwise the four fields. */
  function ParseFrame(frame: seq<byte>): Result<Record>
  {
    if |frame| < MinFrameSize then Err(FrameTooShort)
    else if Uint32(frame[..4]) != |frame| - 4 then Err(LengthMismatch)
    else Ok(Record(frame[4], Uint64(frame[5..13]), frame[13..|frame| - TagSize], frame[|frame| - TagSize..]))
  }

  /** `DecodeRecord` on a receive window `w`: the window afterwards and the
      outcome. The header checks come first and leave the window alone; then
      the replay check, which moves the window when it accepts; then Open. */
  function Decode(w: WindowState, aead: Aead, salt: seq<byte>, frame: seq<byte>): (WindowState, Result<seq<byte>>)
  {
    match ParseFrame(frame)
    case Err(e) => (w, Err(e))
    case Ok(r) =>
      var (w', admitted) := AcceptStep(w, r.seqNo);
      if !admitted then (w, Err(ReplayOrOld))
      else
        match aead.open(Nonce(salt, r.seqNo), r.body + r.tag, AdditionalData(r.flags, r.seqNo))
        case None => (w', Err(AuthFailed))
        case Some(p) => (w', Ok(p))
  }

  // ---------------------------------------------------------------------
  // Properties of the frame format

  /** A record with a 16-byte tag whose length fits the 32-bit length field
      is parsed back exactly from its layout. */
  lemma LayoutParses(r: Record)
    requires |r.tag| == TagSize && LengthFits(|r.body|)
    ensures ParseFrame(Layout(r)) == Ok(r)
  {
    var f := Layout(r);
    var len := LengthField(|r.body|);
    assert f[..4] == PutUint32(len);
    Uint32RoundTrip(len);
    assert f[5..13] == PutUint64(r.seqNo);
    Uint64RoundTrip(r.seqNo);
    assert f[13..|f| - TagSize] == r.body;
    assert f[|f| - TagSize..] == r.tag;
  }

  /** Parsing loses nothing: every frame that passes the header checks is the
      layout of the record it parses to. */
  lemma ParseIsExact(f: seq<byte>)
    requires ParseFrame(f).Ok?
    ensures |ParseFrame(f).value.tag| == TagSize && Layout(ParseFrame(f).value) == f
  {
    var r := ParseFrame(f).value;
    assert Uint32(f[..4]) == |f| - 4 == LengthField(|r.body|);
    PutUint64RoundTrip(f[5..13]);
    ToFromBE(f[..4]);
    assert PutUint32(LengthField(|r.body|)) == f[..4];
    assert f == f[..4] + [f[4]] + f[5..13] + f[13..|f| - TagSize] + f[|f| - TagSize..];
  }

  /** A record whose frame would be 2^32 + 4 bytes or longer is still written,
      but its length field has wrapped and `DecodeRecord` refuses it. */
  lemma OversizedNeverParses(r: Record)
    requires |r.tag| == TagSize && !LengthFits(|r.body|)
    ensures ParseFrame(Layout(r)) == Err(LengthMismatch)
  {
    var f := Layout(r);
    assert f[..4] == PutUint32(LengthField(|r.body|));
    Uint32RoundTrip(LengthField(|r.body|));
  }

  /** The frame `EncodeRecord` emits: `29 + len(plaintext)` bytes, the length
      field, the flags, the sequence number, then the AEAD output. */
  lemma FrameLayout(aead: Gcm, salt: seq<byte>, seqNo: u64, flags: byte, plaintext: seq<byte>)
    requires LengthFits(|plaintext|)
    ensures var f := Layout(SealRecord(aead, salt, seqNo, flags, plaintext));
      |f| == MinFrameSize + |plaintext| &&
      Uint32(f[..4]) == |f| - 4 && f[4] == flags && Uint64(f[5..13]) == seqNo &&
      f[HeaderSize..] == aead.seal(Nonce(salt, seqNo), plaintext, AdditionalData(flags, seqNo))
  {
    var r := SealRecord(aead, salt, seqNo, flags, plaintext);
    var f := Layout(r);
    LayoutParses(r);
    assert f[HeaderSize..] == r.body + r.tag;
  }

  // ---------------------------------------------------------------------
  // Properties of decoding

  /** The length checks come before the replay check: a frame shorter than 29
      bytes, or one whose length field is wrong, is refused with the window
      unchanged. */
  lemma HeaderChecksFirst(w: WindowState, aead: Aead, salt: seq<byte>, f: seq<byte>)
    ensures |f| < MinFrameSize ==> Decode(w, aead, salt, f) == (w, Err(FrameTooShort))
    ensures |f| >= MinFrameSize && Uint32(f[..4]) != |f| - 4 ==>
      Decode(w, aead, salt, f) == (w, Err(LengthMismatch))
  {
  }

  /** The replay check comes before authentication: a well-formed frame whose
      sequence number the window rejects is refused, whatever the AEAD would
      say, and the window is unchanged. */
  lemma ReplayCheckBeforeOpen(w: WindowState, aead: Aead, salt: seq<byte>, f: seq<byte>)
    requires ParseFrame(f).Ok? && Rejects(w, ParseFrame(f).value.seqNo)
    ensures Decode(w, aead, salt, f) == (w, Err(ReplayOrOld))
  {
    AcceptVerdict(w, ParseFrame(f).value.seqNo);
  }

  /** Records round-trip: a frame `EncodeRecord` produced is decoded by a
      receiver with the same key and salt to the original plaintext, when its
      sequence number passes the receiver's window; the encode and decode
      sides build the same nonce and additional data. */
  lemma RecordRoundTrip(w: WindowState, aead: Gcm, salt: seq<byte>, seqNo: u64, flags: byte, plaintext: seq<byte>)
    requires LengthFits(|plaintext|)
    ensures Decode(w, aead, salt, Layout(SealRecord(aead, salt, seqNo, flags, plaintext))) ==
      if AcceptStep(w, seqNo).1 then (AcceptStep(w, seqNo).0, Ok(plaintext)) else (w, Err(ReplayOrOld))
  {
    var r := SealRecord(aead, salt, seqNo, flags, plaintext);
    LayoutParses(r);
    assert aead.open(Nonce(salt, seqNo), r.body + r.tag, AdditionalData(flags, seqNo)) == Some(plaintext);
  }

  /** Because the window moves before Open is tried, a forged frame that
      fails authentication still uses up its sequence number: the genuine
      record with that number is then refused as a replay. */
  lemma ForgeryBurnsSequenceNumber(w: WindowState, aead: Gcm, salt: seq<byte>, forged: seq<byte>,
                                   flags: byte, plaintext: seq<byte>)
    requires ParseFrame(forged).Ok?
    requires var r := ParseFrame(forged).value;
      aead.open(Nonce(salt, r.seqNo), r.body + r.tag, AdditionalData(r.flags, r.seqNo)).None?
    requires !Rejects(w, ParseFrame(forged).value.seqNo)
    requires LengthFits(|plaintext|)
    ensures var seqNo := ParseFrame(forged).value.seqNo;
      var w1 := AcceptStep(w, seqNo).0;
      Decode(w, aead, salt, forged) == (w1, Err(AuthFailed)) &&
      Decode(w1, aead, salt, Layout(SealRecord(aead, salt, seqNo, flags, plaintext))) == (w1, Err(ReplayOrOld))
  {
    var seqNo := ParseFrame(forged).value.seqNo;
    AcceptVerdict(w, seqNo);
    AcceptedNowRejected(w, seqNo);
    var w1 := AcceptStep(w, seqNo).0;
    RecordRoundTrip(w1, aead, salt, seqNo, flags, plaintext);
    AcceptVerdict(w1, seqNo);
  }

  /** `EncodeRecord` increments the counter modulo 2^64. Once a receiver has
      seen record 2^64 - 1, the records numbered after the wrap, 0 onwards,
      lie more than 64 behind `maxSeq` and are all refused as replays. */
  lemma CounterWrapRefused(w: WindowState, aead: Gcm, salt: seq<byte>, flags: byte,
                           last: seq<byte>, next: seq<byte>, s: u64)
    requires LengthFits(|last|) && LengthFits(|next|)
    requires s < TwoTo64 - WindowSize
    ensures var w1 := Decode(w, aead, salt, Layout(SealRecord(aead, salt, TwoTo64 - 1, flags, last))).0;
      w1.maxSeq == TwoTo64 - 1 &&
      Decode(w1, aead, salt, Layout(SealRecord(aead, salt, s, flags, next))) == (w1, Err(ReplayOrOld))
  {
    RecordRoundTrip(w, aead, salt, TwoTo64 - 1, flags, last);
    AcceptVerdict(w, TwoTo64 - 1);
    var w1 := Decode(w, aead, salt, Layout(SealRecord(aead, salt, TwoTo64 - 1, flags, last))).0;
    AcceptTooOld(w1, s);
    RecordRoundTrip(w1, aead, salt, s, flags, next);
  }

  /** A fresh window accepts any first sequence number, 0 included. */
  lemma InitialAcceptsAll(s: u64)
    ensures AcceptStep(Initial(), s).1
  {
  }

  // ---------------------------------------------------------------------
  // The session

  /** Go's `copy(dst[at:], src)`. */
  method Copy(dst: array<byte>, at: nat, src: seq<byte>)
    requires at + |src| <= dst.Length
    modifies dst
    ensures forall i :: 0 <= i < dst.Length ==>
      dst[i] == if at <= i < at + |src| then src[i - at] else old(dst[i])
  {
    var i := 0;
    while i < |src|
      invariant 0 <= i <= |src|
      invariant forall j :: 0 <= j < dst.Length ==>
        dst[j] == if at <= j < at + i then src[j - at] else old(dst[j])
    {
      dst[at + i] := src[i];
      i := i + 1;
    }
  }

  /** An established session: one key for both directions, the salt that
      prefixes this side's nonces, the send counter and the receive window. */
  class Session {
    var key: seq<byte>
    var salt: seq<byte>
    /** Go's `seq`: the number of the last record sent. */
    var sendSeq: u64
    var recvWindow: Window
    var aead: Gcm

    ghost predicate Valid()
      reads this, recvWindow
    {
      recvWindow.Valid()
    }

    /** `NewSession` after key agreement: `shared` is the compressed shared
        point, `newGcm` builds the AEAD for a key and `initSeq` is the random
        first counter value. */
    constructor (shared: seq<byte>, selfSalt: seq<byte>, peerSalt: seq<byte>,
                 sha256: seq<byte> -> seq<byte>, newGcm: seq<byte> -> Gcm, initSeq: u64)
      ensures Valid() && fresh(recvWindow)
      ensures key == DeriveKey(sha256, shared, selfSalt, peerSalt) && aead == newGcm(key)
      ensures salt == selfSalt && sendSeq == initSeq
      ensures recvWindow.State() == Initial() && recvWindow.accepted == {}
    {
      var k := DeriveKey(sha256, shared, selfSalt, peerSalt);
      key := k;
      aead := newGcm(k);
      salt := selfSalt;
      sendSeq := initSeq;
      recvWindow := new Window();
    }

    /** `EncodeRecord`: the counter is incremented first (wrapping at 2^64)
        and the new frame is the layout of the record sealed under it. */
    method EncodeRecord(plaintext: seq<byte>, flags: byte) returns (frame: array<byte>)
      modifies this
      ensures sendSeq == (old(sendSeq) + 1) % TwoTo64
      ensures key == old(key) && salt == old(salt) && aead == old(aead) && recvWindow == old(recvWindow)
      ensures fresh(frame) && frame[..] == Layout(SealRecord(aead, salt, sendSeq, flags, plaintext))
    {
      sendSeq := (sendSeq + 1) % TwoTo64;
      var seqBytes := PutUint64(sendSeq);
      var nonce := salt + seqBytes;
      var ad := [flags] + seqBytes;
      var sealed := aead.seal(nonce, plaintext, ad);
      var tag := sealed[|sealed| - TagSize..];
      var body := sealed[..|sealed| - TagSize];
      var length := LengthField(|body|);
      frame := new byte[4 + 1 + 8 + |body| + TagSize];
      var lengthBytes := PutUint32(length);
      Copy(frame, 0, lengthBytes);
      frame[4] := flags;
      Copy(frame, 5, seqBytes);
      Copy(frame, 13, body);
      Copy(frame, 13 + |body|, tag);
      ghost var expected := Layout(SealRecord(aead, salt, sendSeq, flags, plaintext));
      assert expected == lengthBytes + [flags] + seqBytes + body + tag;
      assert frame[..] == expected;
    }

    /** `DecodeRecord`: the outcome and the new window are those of `Decode`;
        the sequence number is recorded as seen exactly when the window
        accepted it, whether or not the frame then authenticates. */
    method DecodeRecord(frame: array<byte>) returns (result: Result<seq<byte>>)
      requires Valid()
      modifies recvWindow
      ensures Valid()
      ensures (recvWindow.State(), result) == Decode(old(recvWindow.State()), aead, salt, frame[..])
      ensures recvWindow.accepted ==
        if ParseFrame(frame[..]).Ok? && AcceptStep(old(recvWindow.State()), ParseFrame(frame[..]).value.seqNo).1
        then old(recvWindow.accepted) + {ParseFrame(frame[..]).value.seqNo}
        else old(recvWindow.accepted)
    {
      if frame.Length < 4 + 1 + 8 + TagSize {
        return Err(FrameTooShort);
      }
      var length := Uint32(frame[..4]);
      if length != frame.Length - 4 {
        return Err(LengthMismatch);
      }
      var flags := frame[4];
      var seqNo := Uint64(frame[5..13]);
      var admitted := recvWindow.Accept(seqNo);
      if !admitted {
        return Err(ReplayOrOld);
      }
      var body := frame[13..frame.Length - TagSize];
      var tag := frame[frame.Length - TagSize..];
      var seqBytes := PutUint64(seqNo);
      var nonce := salt + seqBytes;
      var ad := [flags] + seqBytes;
      var plain := aead.open(nonce, body + tag, ad);
      if plain.None? {
        return Err(AuthFailed);
      }
      return Ok(plain.value);
    }
  }

  /** Two peers that derive their sessions from the same shared secret and
      the same ordered salt pair, as the cross-implementation tests do, can
      exchange a record: what one side encodes the other decodes. */
  method ExchangeOneRecord(shared: seq<byte>, saltA: seq<byte>, saltB: seq<byte>,
                           sha256: seq<byte> -> seq<byte>, newGcm: seq<byte> -> Gcm,
                           initSeqA: u64, initSeqB: u64, flags: byte, plaintext: seq<byte>)
    returns (received: Result<seq<byte>>)
    requires LengthFits(|plaintext|)
    ensures received == Ok(plaintext)
  {
    var a := new Session(shared, saltA, saltB, sha256, newGcm, initSeqA);
    var b := new Session(shared, saltA, saltB, sha256, newGcm, initSeqB);
    var frame := a.EncodeRecord(plaintext, flags);
    RecordRoundTrip(Initial(), a.aead, a.salt, a.sendSeq, flags, plaintext);
    received := b.DecodeRecord(frame);
  }
}
