/**
 The framing of the registry's write-ahead log: a little-endian body length, a protected header
 and payload, and the SHA-256 digest of the protected part.  The digest is an arbitrary function
 to 32 bytes, so every statement holds for any hash.
 */
module Frames {
  import opened Wire

  type Digest = d: Bytes | |d| == 32 witness seq(32, _ => 0)

  datatype Kind = Prepare | Commit | Snapshot

  datatype Frame = Frame(kind: Kind, index: u64, payload: Bytes)

  datatype Decoded = Incomplete | Rejected | Panics | Decoded(frame: Frame, end: nat)

  const MAGIC: Bytes := [77, 82, 87, 49]
  const HEADER: nat := 20
  const DIGEST: nat := 32
  /** `FRAME_FIXED_BYTES`: the header and the digest. */
  const FIXED: nat := 52

  function KindByte(k: Kind): (b: byte)
    ensures 1 <= b <= 3
    ensures b == 1 <==> k == Prepare
    ensures b == 2 <==> k == Commit
  {
    match k
    case Prepare => 1
    case Commit => 2
    case Snapshot => 3
  }

  function KindOf(b: byte): Kind
    requires 1 <= b <= 3
  {
    if b == 1 then Prepare else if b == 2 then Commit else Snapshot
  }

  function Header(f: Frame): (r: Bytes)
    ensures |r| == HEADER
  {
    MAGIC + Le(1, 2) + [KindByte(f.kind), 0] + Le(f.index, 8) + Le(|f.payload|, 4)
  }

  function Protected(f: Frame): (r: Bytes)
    ensures |r| == HEADER + |f.payload|
  {
    Header(f) + f.payload
  }

  /** The lengths that `encode_frame` can represent; it refuses every other payload. */
  predicate Fits(f: Frame) {
    HEADER + |f.payload| + DIGEST < U32_LIMIT
  }

  function Size(f: Frame): nat {
    4 + HEADER + |f.payload| + DIGEST
  }

  function Encode(sha: Bytes -> Digest, f: Frame): (r: Bytes)
    ensures |r| == Size(f)
  {
    Le(HEADER + |f.payload| + DIGEST, 4) + Protected(f) + sha(Protected(f))
  }

  function EncodeAll(sha: Bytes -> Digest, fs: seq<Frame>): Bytes {
    if fs == [] then [] else Encode(sha, fs[0]) + EncodeAll(sha, fs[1..])
  }

  /** The frame that starts `rest`; its `end` is relative to `rest`. */
  function DecodeHead(sha: Bytes -> Digest, rest: Bytes, maxPayload: nat): Decoded {
    if |rest| < 4 then Incomplete
    else
      var bodyLen := FromLe(rest[..4]);
      if |rest| < 4 + bodyLen then Incomplete
      else if bodyLen < FIXED - 4 then Rejected
      else
        var body := rest[4..4 + bodyLen];
        var guarded := body[..bodyLen - DIGEST];
        if sha(guarded) != body[bodyLen - DIGEST..] then Rejected
        else if guarded[..4] != MAGIC || guarded[4..6] != Le(1, 2) then Rejected
        else if !(1 <= guarded[6] <= 3) || guarded[7] != 0 then Rejected
        else if |guarded| < HEADER then Panics
        else
          DecodeTail(guarded, maxPayload, 4 + bodyLen)
  }

  function DecodeTail(guarded: Bytes, maxPayload: nat, end: nat): Decoded
    requires |guarded| >= HEADER && 1 <= guarded[6] <= 3
  {
    Widths();
    var payloadLen := FromLe(guarded[16..20]);
    if payloadLen > maxPayload || |guarded| != HEADER + payloadLen then Rejected
    else Decoded(Frame(KindOf(guarded[6]), FromLe(guarded[8..16]), guarded[HEADER..]), end)
  }

  /** `decode_frame_at`. */
  function Decode(sha: Bytes -> Digest, bytes: Bytes, offset: nat, maxPayload: nat): (r: Decoded)
    requires offset <= |bytes|
    ensures r.Decoded? ==> offset < r.end <= |bytes|
  {
    match DecodeHead(sha, bytes[offset..], maxPayload)
    case Decoded(frame, end) => Decoded(frame, offset + end)
    case other => other
  }

  // ----- An encoded frame decodes to itself, in any surroundings -----

  lemma HeaderFields(f: Frame)
    ensures var h := Header(f);
            && h[..4] == MAGIC && h[4..6] == Le(1, 2) && h[6] == KindByte(f.kind) && h[7] == 0
            && h[8..16] == Le(f.index, 8) && h[16..20] == Le(|f.payload|, 4)
  {
    var start := MAGIC + Le(1, 2) + [KindByte(f.kind), 0];
    assert |start| == 8 && start[..4] == MAGIC && start[4..6] == Le(1, 2);
    var h := Header(f);
    assert h[..8] == start;
    assert h[..4] == start[..4] && h[4..6] == start[4..6];
  }

  lemma ProtectedFields(f: Frame)
    requires Fits(f)
    ensures var g := Protected(f);
            && g[..4] == MAGIC && g[4..6] == Le(1, 2)
            && g[6] == KindByte(f.kind) && g[7] == 0
            && FromLe(g[8..16]) == f.index && FromLe(g[16..20]) == |f.payload|
            && g[HEADER..] == f.payload
  {
    Widths();
    LeRoundTrip(f.index, 8);
    LeRoundTrip(|f.payload|, 4);
    HeaderFields(f);
    var g, h := Protected(f), Header(f);
    assert forall i, j :: 0 <= i <= j <= HEADER ==> g[i..j] == h[i..j];
  }

  lemma HeadOfEncoded(sha: Bytes -> Digest, f: Frame, post: Bytes, maxPayload: nat)
    requires Fits(f)
    ensures DecodeHead(sha, Encode(sha, f) + post, maxPayload)
         == if |f.payload| <= maxPayload then Decoded(f, Size(f)) else Rejected
  {
    hide Le, FromLe, Pow256, Protected;
    var g, n := Protected(f), HEADER + |f.payload| + DIGEST;
    var rest := Encode(sha, f) + post;
    Widths();
    LeRoundTrip(n, 4);
    assert rest[..4] == Le(n, 4);
    var body := rest[4..4 + n];
    assert body == g + sha(g);
    assert body[..n - DIGEST] == g;
    assert body[n - DIGEST..] == sha(g);
    ProtectedFields(f);
  }

  lemma DecodeEncoded(sha: Bytes -> Digest, pre: Bytes, f: Frame, post: Bytes, maxPayload: nat)
    requires Fits(f)
    ensures Decode(sha, pre + Encode(sha, f) + post, |pre|, maxPayload)
         == if |f.payload| <= maxPayload then Decoded(f, |pre| + Size(f)) else Rejected
  {
    assert (pre + Encode(sha, f) + post)[|pre|..] == Encode(sha, f) + post;
    HeadOfEncoded(sha, f, post, maxPayload);
  }

  /** No strict prefix of a frame decodes: a torn write is seen as an incomplete tail. */
  lemma DecodeTorn(sha: Bytes -> Digest, pre: Bytes, f: Frame, cut: nat, maxPayload: nat)
    requires Fits(f) && cut < Size(f)
    ensures Decode(sha, pre + Encode(sha, f)[..cut], |pre|, maxPayload) == Incomplete
  {
    var torn := Encode(sha, f)[..cut];
    assert (pre + torn)[|pre|..] == torn;
    if cut >= 4 {
      var n := HEADER + |f.payload| + DIGEST;
      Widths();
      LeRoundTrip(n, 4);
      assert torn[..4] == Le(n, 4);
    }
  }

  // ----- Sequences of frames -----

  lemma {:induction false} EncodeAllAppend(sha: Bytes -> Digest, a: seq<Frame>, b: seq<Frame>)
    ensures EncodeAll(sha, a + b) == EncodeAll(sha, a) + EncodeAll(sha, b)
  {
    if a == [] {
      assert a + b == b;
    } else {
      assert (a + b)[1..] == a[1..] + b;
      EncodeAllAppend(sha, a[1..], b);
    }
  }

  lemma EncodeOne(sha: Bytes -> Digest, f: Frame)
    ensures EncodeAll(sha, [f]) == Encode(sha, f)
  {
    assert EncodeAll(sha, [f]) == Encode(sha, f) + [];
  }

  predicate AllFit(fs: seq<Frame>) {
    forall f <- fs :: Fits(f)
  }

  /** A byte string is the encoding of at most one sequence of frames. */
  lemma {:induction false} ParsesOneWay(sha: Bytes -> Digest, fs: seq<Frame>, gs: seq<Frame>)
    requires AllFit(fs) && AllFit(gs)
    requires EncodeAll(sha, fs) == EncodeAll(sha, gs)
    ensures fs == gs
  {
    if fs == [] || gs == [] {
      return;
    }
    var limit := |fs[0].payload| + |gs[0].payload|;
    HeadOfEncoded(sha, fs[0], EncodeAll(sha, fs[1..]), limit);
    HeadOfEncoded(sha, gs[0], EncodeAll(sha, gs[1..]), limit);
    var all := EncodeAll(sha, fs);
    assert all[Size(fs[0])..] == EncodeAll(sha, fs[1..]);
    assert all[Size(gs[0])..] == EncodeAll(sha, gs[1..]);
    ParsesOneWay(sha, fs[1..], gs[1..]);
    assert fs == [fs[0]] + fs[1..] && gs == [gs[0]] + gs[1..];
  }

  /** How many frames of `fs` lie wholly within the first `cut` bytes of their encoding. */
  function Whole(fs: seq<Frame>, cut: nat): (n: nat)
    ensures n <= |fs|
  {
    if fs == [] || cut < Size(fs[0]) then 0 else 1 + Whole(fs[1..], cut - Size(fs[0]))
  }

  /** The bytes of the first frame that the cut tore apart; none when the cut ends a frame. */
  function Torn(sha: Bytes -> Digest, fs: seq<Frame>, cut: nat): Bytes {
    if fs == [] then []
    else if cut < Size(fs[0]) then Encode(sha, fs[0])[..cut]
    else Torn(sha, fs[1..], cut - Size(fs[0]))
  }

  lemma TakeAcross(a: Bytes, b: Bytes, k: nat)
    requires k <= |b|
    ensures (a + b)[..|a| + k] == a + b[..k]
  {
  }

  lemma Associative(a: Bytes, b: Bytes, c: Bytes)
    ensures a + (b + c) == a + b + c
  {
  }

  /** Cutting an encoded sequence leaves its whole frames and a torn remainder. */
  lemma {:induction false} CutSplit(sha: Bytes -> Digest, fs: seq<Frame>, cut: nat)
    requires cut <= |EncodeAll(sha, fs)|
    ensures EncodeAll(sha, fs)[..cut] == EncodeAll(sha, fs[..Whole(fs, cut)]) + Torn(sha, fs, cut)
  {
    if fs == [] {
    } else if cut < Size(fs[0]) {
      assert fs[..0] == [];
    } else {
      var rest, restCut := fs[1..], cut - Size(fs[0]);
      CutSplit(sha, rest, restCut);
      var n := Whole(rest, restCut);
      assert fs[..n + 1][0] == fs[0] && fs[..n + 1][1..] == rest[..n];
      var first, whole, torn := Encode(sha, fs[0]), EncodeAll(sha, rest[..n]), Torn(sha, rest, restCut);
      calc {
        EncodeAll(sha, fs)[..cut];
        { TakeAcross(first, EncodeAll(sha, rest), restCut); }
        first + (whole + torn);
        { Associative(first, whole, torn); }
        first + whole + torn;
        EncodeAll(sha, fs[..n + 1]) + torn;
      }
    }
  }

  /** The torn remainder is a strict prefix of the first frame that is not whole. */
  lemma {:induction false} TornIsPrefix(sha: Bytes -> Digest, fs: seq<Frame>, cut: nat)
    requires cut <= |EncodeAll(sha, fs)|
    ensures var n, torn := Whole(fs, cut), Torn(sha, fs, cut);
            if n == |fs| then torn == [] else |torn| < Size(fs[n]) && torn == Encode(sha, fs[n])[..|torn|]
  {
    if fs != [] && cut >= Size(fs[0]) {
      TornIsPrefix(sha, fs[1..], cut - Size(fs[0]));
    }
  }

  /** Both facts at once, naming the torn frame (any frame with no bytes left when none is torn). */
  lemma CutShape(sha: Bytes -> Digest, fs: seq<Frame>, cut: nat) returns (next: Frame, left: nat)
    requires AllFit(fs) && cut <= |EncodeAll(sha, fs)|
    ensures Fits(next) && left < Size(next) && AllFit(fs[..Whole(fs, cut)])
    ensures EncodeAll(sha, fs)[..cut] == [] + EncodeAll(sha, fs[..Whole(fs, cut)]) + Encode(sha, next)[..left]
  {
    hide EncodeAll, Encode, Torn, Whole;
    CutSplit(sha, fs, cut);
    TornIsPrefix(sha, fs, cut);
    var w, torn := Whole(fs, cut), Torn(sha, fs, cut);
    left := |torn|;
    if w < |fs| {
      next := fs[w];
      assert fs[w] in fs;
    } else {
      next := Frame(Prepare, 0, []);
    }
    assert Encode(sha, next)[..left] == torn;
    assert forall f :: f in fs[..w] ==> f in fs;
    assert [] + EncodeAll(sha, fs[..w]) == EncodeAll(sha, fs[..w]);
  }

  /** The whole frames are counted monotonically and a synced prefix of frames stays whole. */
  lemma {:induction false} WholeAtLeast(sha: Bytes -> Digest, fs: seq<Frame>, k: nat, cut: nat)
    requires k <= |fs| && |EncodeAll(sha, fs[..k])| <= cut
    ensures Whole(fs, cut) >= k
  {
    if k > 0 {
      assert fs[..k][1..] == fs[1..][..k - 1];
      WholeAtLeast(sha, fs[1..], k - 1, cut - Size(fs[0]));
    }
  }

  // ----- Where the decoder is unsafe -----

  /**
   The length check lets a body of 48 to 51 bytes through to a read that needs 52.  The decoder
   panics exactly on such bodies when the digest and the first eight header bytes are right.
   */
  lemma PanicsExactly(sha: Bytes -> Digest, bytes: Bytes, offset: nat, maxPayload: nat)
    requires offset <= |bytes|
    ensures Decode(sha, bytes, offset, maxPayload) == Panics <==>
            && offset + 4 <= |bytes|
            && var n := FromLe(bytes[offset..offset + 4]);
            && FIXED - 4 <= n < FIXED && offset + 4 + n <= |bytes|
            && var guarded := bytes[offset + 4..offset + 4 + n - DIGEST];
            && sha(guarded) == bytes[offset + 4 + n - DIGEST..offset + 4 + n]
            && guarded[..6] == MAGIC + Le(1, 2)
            && 1 <= guarded[6] <= 3 && guarded[7] == 0
  {
    hide FromLe, Le, DecodeHead;
    var rest := bytes[offset..];
    HeadPanicsExactly(sha, rest, maxPayload);
    if |rest| >= 4 {
      Slice(bytes, offset, 0, 4);
      var n := FromLe(rest[..4]);
      if FIXED - 4 <= n && 4 + n <= |rest| {
        Slice(bytes, offset, 4, 4 + n - DIGEST);
        Slice(bytes, offset, 4 + n - DIGEST, 4 + n);
      }
    }
  }

  /** The same of a decoder that starts at the first byte. */
  lemma HeadPanicsExactly(sha: Bytes -> Digest, rest: Bytes, maxPayload: nat)
    ensures DecodeHead(sha, rest, maxPayload) == Panics <==>
            && 4 <= |rest|
            && var n := FromLe(rest[..4]);
            && FIXED - 4 <= n < FIXED && 4 + n <= |rest|
            && var guarded := rest[4..4 + n - DIGEST];
            && sha(guarded) == rest[4 + n - DIGEST..4 + n]
            && guarded[..6] == MAGIC + Le(1, 2)
            && 1 <= guarded[6] <= 3 && guarded[7] == 0
  {
    hide FromLe, Le;
    if |rest| >= 4 {
      var n := FromLe(rest[..4]);
      if FIXED - 4 <= n && 4 + n <= |rest| {
        var body := rest[4..4 + n];
        assert body[..n - DIGEST] == rest[4..4 + n - DIGEST] && body[n - DIGEST..] == rest[4 + n - DIGEST..4 + n];
        SplitMagic(body[..n - DIGEST]);
      }
    }
  }

  lemma Slice(b: Bytes, from: nat, i: nat, j: nat)
    requires i <= j && from + j <= |b|
    ensures b[from..][i..j] == b[from + i..from + j]
  {
  }

  lemma SplitMagic(g: Bytes)
    requires |g| >= 6
    ensures g[..6] == MAGIC + Le(1, 2) <==> g[..4] == MAGIC && g[4..6] == Le(1, 2)
  {
    hide Le;
    assert |MAGIC| == 4 && g[..6] == g[..4] + g[4..6];
    if g[..6] == MAGIC + Le(1, 2) {
      assert g[..4] == g[..6][..4] == MAGIC;
      assert g[4..6] == g[..6][4..] == Le(1, 2);
    }
  }

  /** The protected part of a prepare frame for index 0 that stops before its payload length. */
  const SHORT: Bytes := MAGIC + Le(1, 2) + [1, 0] + Le(0, 8)

  /** A well-signed body of 48 bytes on which the decoder panics, whatever the hash. */
  lemma PanicExample(sha: Bytes -> Digest, maxPayload: nat)
    ensures Decode(sha, Le(48, 4) + SHORT + sha(SHORT), 0, maxPayload) == Panics
  {
    var bytes := Le(48, 4) + SHORT + sha(SHORT);
    assert |MAGIC| == 4 && |SHORT| == 16;
    assert bytes[0..4] == Le(48, 4);
    Widths();
    LeRoundTrip(48, 4);
    assert bytes[4..20] == SHORT && bytes[20..52] == sha(SHORT);
    assert SHORT[..6] == MAGIC + Le(1, 2) && SHORT[6] == 1 && SHORT[7] == 0;
    PanicsExactly(sha, bytes, 0, maxPayload);
  }
}
