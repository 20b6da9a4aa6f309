/** What removal frees, what it takes from uploads in progress, and what manifests describe. */
module ContentRemoval {
  import opened Wire
  import opened Hashing
  import opened Outcomes
  import opened Tasks
  import opened Content
  import opened ContentTheorems

  // ----- Removal -----

  predicate Lists(m: Manifest, name: string) {
    exists i :: 0 <= i < |m.chunks| && m.chunks[i].digest == name
  }

  /** Some committed content other than this one lists the chunk. */
  predicate Needed(f: Files, gone: ContentId, name: string) {
    exists d <- f.manifests :: d != gone.digest && Lists(f.manifests[d], name)
  }

  /** Removing a committed content keeps a chunk file exactly when another committed content lists it. */
  lemma FreesExactly(f: Files, gone: ContentId, name: string)
    requires gone.digest in f.manifests
    ensures var f' := Remove(f, gone);
            && (name in f'.chunks <==> name in f.chunks && Needed(f, gone, name))
            && (name in f'.chunks ==> f'.chunks[name] == f.chunks[name])
            && f'.manifests == f.manifests - {gone.digest} && f'.uploads == f.uploads
  {
    var left := f.manifests - {gone.digest};
    if name in Referenced(left) {
      var d, c :| d in left && c in left[d].chunks && c.digest == name;
      var i :| 0 <= i < |left[d].chunks| && left[d].chunks[i] == c;
      assert Lists(f.manifests[d], name);
    }
    if Needed(f, gone, name) {
      var d :| d in f.manifests && d != gone.digest && Lists(f.manifests[d], name);
      var i :| 0 <= i < |f.manifests[d].chunks| && f.manifests[d].chunks[i].digest == name;
      assert left[d].chunks[i] in left[d].chunks;
    }
  }

  /** Removing what is not committed changes nothing. */
  lemma RemovesOnlyCommitted(f: Files, gone: ContentId)
    ensures Remove(f, gone) == f <==> gone.digest !in f.manifests
  {
    if gone.digest in f.manifests {
      assert gone.digest !in Remove(f, gone).manifests;
    }
  }

  // ----- Uploading again -----

  /** A chunk is reported missing exactly when it has no file. */
  lemma {:induction false} MissingExactly(sha: Bytes -> string, files: map<string, Bytes>, cs: seq<Chunk>)
    requires forall i :: 0 <= i < |cs| ==> cs[i].index == i && (cs[i].digest in files ==> Matches(sha, files[cs[i].digest], cs[i]))
    ensures var r := Missing(sha, files, cs); r.Ok? && forall i :: i in r.value <==> 0 <= i < |cs| && cs[i].digest !in files
  {
    hide Matches;
    if cs != [] {
      var n := |cs| - 1;
      MissingExactly(sha, files, cs[..n]);
    }
  }

  lemma {:induction false} ValidIndices(m: Manifest, n: nat)
    requires n <= |m.chunks| && ValidateTo(m, n).Ok?
    ensures forall i :: 0 <= i < n ==> m.chunks[i].index == i
  {
    if n > 0 {
      ValidIndices(m, n - 1);
    }
  }

  /** After its removal, an upload of the same content misses exactly the chunks that no other committed content shares. */
  lemma MissingAfterRemoval(cfg: Config, f: Files, gone: ContentId)
    requires FilesOk(cfg, f) && gone.digest in f.manifests && Validate(cfg, f.manifests[gone.digest]).Ok?
    ensures var m := f.manifests[gone.digest];
            var (f', r) := Begin(cfg, Remove(f, gone), m);
            && r.Ok? && (forall i :: i in r.value <==> 0 <= i < |m.chunks| && !Needed(f, gone, m.chunks[i].digest))
            && gone.digest in f'.uploads && f'.uploads[gone.digest] == m && f'.chunks == Remove(f, gone).chunks
  {
    hide Matches, Needed, Remove, Missing, ValidateTo, ValidDigest, Pending, Assemble;
    var m, left := f.manifests[gone.digest], Remove(f, gone);
    assert Sound(cfg, f, gone.digest, m);
    ValidIndices(m, |m.chunks|);
    forall i | 0 <= i < |m.chunks|
      ensures m.chunks[i].digest in left.chunks <==> Needed(f, gone, m.chunks[i].digest)
      ensures m.chunks[i].digest in left.chunks ==> Matches(cfg.sha, left.chunks[m.chunks[i].digest], m.chunks[i])
    {
      assert m.chunks[i] in m.chunks;
      FreesExactly(f, gone, m.chunks[i].digest);
    }
    FreesExactly(f, gone, gone.digest);
    MissingExactly(cfg.sha, left.chunks, m.chunks);
  }

  /**
   A removal also takes chunk files from uploads in progress: an upload whose chunks had all been
   stored still completes exactly when other committed contents list every one of them.
   */
  lemma UploadAfterRemoval(cfg: Config, f: Files, bytes: Bytes, m: Manifest, gone: ContentId)
    requires cfg.Good() && FilesOk(cfg, f) && Uploading(cfg, f, bytes, m) && gone.digest in f.manifests
    requires Holds(cfg.sha, f.chunks, Pieces(bytes, cfg.chunkSize)) && AllThere(cfg, f, Pieces(bytes, cfg.chunkSize))
    ensures var ps := Pieces(bytes, cfg.chunkSize);
            Complete(cfg, Remove(f, gone), m.content.digest).1 ==
            if forall i :: 0 <= i < |ps| ==> Needed(f, gone, cfg.sha(ps[i])) then Ok(m) else Err(DurabilityUnavailable)
  {
    hide Pieces, Needed, Remove, Complete, FilesOk, Describe;
    var ps, left := Pieces(bytes, cfg.chunkSize), Remove(f, gone);
    RemoveKeeps(cfg, f, gone);
    FreesExactly(f, gone, m.content.digest);
    forall i | 0 <= i < |ps|
      ensures cfg.sha(ps[i]) in left.chunks <==> Needed(f, gone, cfg.sha(ps[i]))
      ensures cfg.sha(ps[i]) in left.chunks ==> left.chunks[cfg.sha(ps[i])] == ps[i]
    {
      FreesExactly(f, gone, cfg.sha(ps[i]));
    }
    CompleteExactly(cfg, left, bytes, m);
  }

  // ----- Putting and removing -----

  /** Every chunk file belongs to a committed content. */
  predicate Tidy(f: Files) {
    forall name <- f.chunks :: exists d <- f.manifests :: Lists(f.manifests[d], name)
  }

  /** Chunk files stay as they are and may only be joined by others. */
  predicate Grows(f: Files, f': Files) {
    f'.manifests == f.manifests && f'.uploads == f.uploads && forall name <- f.chunks :: name in f'.chunks && f'.chunks[name] == f.chunks[name]
  }

  lemma {:induction false} PiecesGrow(cfg: Config, f: Files, digest: string, ps: seq<Bytes>, missing: seq<nat>, i: nat, stats: Stats)
    requires i <= |ps|
    ensures Grows(f, PutPieces(cfg, f, digest, ps, missing, i, stats).0)
    decreases |ps| - i
  {
    hide Matches, ValidDigest;
    if i < |ps| {
      if i !in missing {
        PiecesGrow(cfg, f, digest, ps, missing, i + 1, stats.(reused := stats.reused + 1));
      } else {
        var (f1, r) := WriteChunk(cfg, f, digest, i, ps[i]);
        if r.Ok? {
          PiecesGrow(cfg, f1, digest, ps, missing, i + 1,
                     if r.value then Stats(stats.uploaded + 1, stats.reused, stats.bytes + |ps[i]|) else stats.(reused := stats.reused + 1));
        }
      }
    }
  }

  /** What a first put of some bytes leaves behind. */
  lemma PutCommits(cfg: Config, f: Files, bytes: Bytes, format: string, policy: string)
    requires cfg.Good() && cfg.sha(bytes) !in f.manifests && PutBytes(cfg, f, bytes, format, policy).1.Ok?
    ensures var (f', r) := PutBytes(cfg, f, bytes, format, policy);
            var m, d := r.value.0, cfg.sha(bytes);
            && m.content == ContentId("sha256", d, |bytes|, format) && f'.manifests == f.manifests[d := m] && f'.uploads == f.uploads - {d}
            && forall name <- f.chunks :: name in f'.chunks && f'.chunks[name] == f.chunks[name]
  {
    hide PutPieces, Pieces, Missing, Validate, Assemble, ValidDigest, Describe;
    var m, ps, d := BuildManifest(cfg, bytes, format, policy).value, Pieces(bytes, cfg.chunkSize), cfg.sha(bytes);
    var (f1, missing) := Begin(cfg, f, m);
    PiecesGrow(cfg, f1, d, ps, missing.value, 0, Stats(0, 0, 0));
    var f2 := PutPieces(cfg, f1, d, ps, missing.value, 0, Stats(0, 0, 0)).0;
    assert f2.uploads - {d} == f.uploads - {d};
  }

  lemma ListedThere(cfg: Config, f: Files, digest: string, name: string)
    requires FilesOk(cfg, f) && digest in f.manifests && Lists(f.manifests[digest], name)
    ensures name in f.chunks
  {
    hide Pending;
    var m := f.manifests[digest];
    SoundPresent(cfg, f, digest, m);
    var i :| 0 <= i < |m.chunks| && m.chunks[i].digest == name;
    assert m.chunks[i] in m.chunks;
  }

  /** Removing what was just put gives back the store as it was, if it held no stray chunk files; a store without files is empty again. */
  lemma PutThenRemove(cfg: Config, f: Files, bytes: Bytes, format: string, policy: string)
    requires cfg.Good() && FilesOk(cfg, f) && Tidy(f)
    requires cfg.sha(bytes) !in f.manifests && PutBytes(cfg, f, bytes, format, policy).1.Ok?
    ensures var (f', r) := PutBytes(cfg, f, bytes, format, policy);
            Remove(f', r.value.0.content) == f.(uploads := f.uploads - {cfg.sha(bytes)})
  {
    hide PutBytes, Remove, Lists, FilesOk;
    var (f', r) := PutBytes(cfg, f, bytes, format, policy);
    var id, d := r.value.0.content, cfg.sha(bytes);
    PutCommits(cfg, f, bytes, format, policy);
    var f'' := Remove(f', id);
    assert f'.manifests - {d} == f.manifests;
    forall name
      ensures name in f''.chunks <==> name in f.chunks
      ensures name in f.chunks ==> name in f''.chunks && f''.chunks[name] == f.chunks[name]
    {
      FreesExactly(f', id, name);
      if name in f''.chunks {
        var other :| other in f'.manifests && other != id.digest && Lists(f'.manifests[other], name);
        assert f'.manifests[other] == f.manifests[other];
        ListedThere(cfg, f, other, name);
      }
      if name in f.chunks {
        var other :| other in f.manifests && Lists(f.manifests[other], name);
        assert f'.manifests[other] == f.manifests[other];
      }
    }
    assert f''.chunks == f.chunks;
    FreesExactly(f', id, d);
  }

  /** A store without files is without files again. */
  lemma PutThenRemoveEmpty(cfg: Config, bytes: Bytes, format: string, policy: string)
    requires cfg.Good() && PutBytes(cfg, NO_FILES, bytes, format, policy).1.Ok?
    ensures var (f', r) := PutBytes(cfg, NO_FILES, bytes, format, policy);
            Remove(f', r.value.0.content) == NO_FILES
  {
    hide PutBytes, Remove;
    EmptyStore(cfg);
    PutThenRemove(cfg, NO_FILES, bytes, format, policy);
    var none: map<string, Manifest> := map[];
    assert none - {cfg.sha(bytes)} == none;
  }

  // ----- Manifests -----

  /** Piece `i` of a content is the bytes from `i * n` on, `n` of them or what is left. */
  lemma {:induction false} PieceIs(b: Bytes, n: nat, i: nat, at: nat)
    requires n > 0 && i < |Pieces(b, n)| && at == i * n
    ensures at < |b| && Pieces(b, n)[i] == b[at..if at + n <= |b| then at + n else |b|]
    decreases |b|
  {
    hide Pieces;
    PiecesStep(b, n);
    if i > 0 {
      OneBefore(n, i);
      PieceIs(b[n..], n, i - 1, at - n);
      SliceShift(b, n, at - n, if at <= |b| - n then at else |b| - n);
    }
  }

  lemma PiecesStep(b: Bytes, n: nat)
    requires n > 0
    ensures b == [] ==> Pieces(b, n) == []
    ensures b != [] ==> Pieces(b, n)[0] == b[0..if n <= |b| then n else |b|]
    ensures b != [] && |b| <= n ==> |Pieces(b, n)| == 1
    ensures |b| > n ==> Pieces(b, n)[1..] == Pieces(b[n..], n)
  {
    assert b[0..|b|] == b;
  }

  lemma SliceShift(b: Bytes, n: nat, lo: nat, hi: nat)
    requires n <= |b| && lo <= hi <= |b| - n
    ensures b[n..][lo..hi] == b[lo + n..hi + n]
  {
  }

  lemma OneBefore(n: nat, i: nat)
    requires i > 0
    ensures (i - 1) * n == i * n - n >= 0
  {
  }

  /** Bytes split into at most `k` pieces of `n` exactly when there are at most `k * n` of them. */
  lemma {:induction false} PiecesFit(b: Bytes, n: nat, k: nat)
    requires n > 0
    ensures |Pieces(b, n)| <= k <==> |b| <= k * n
    decreases |b|
  {
    if b == [] {
    } else if |b| <= n {
      assert k >= 1 ==> k * n >= n;
    } else if k > 0 {
      PiecesFit(b[n..], n, k - 1);
      assert (k - 1) * n + n == k * n;
    }
  }

  /** A manifest is built exactly for contents within the chunk limit, and describes them piece by piece. */
  lemma BuildsExactly(cfg: Config, bytes: Bytes, format: string, policy: string, i: nat)
    requires cfg.Good()
    ensures var r := BuildManifest(cfg, bytes, format, policy);
            && (r.Ok? <==> |bytes| <= cfg.maxChunks * cfg.chunkSize) && (r.Err? ==> r.error == CapacityExceeded)
            && (r.Ok? ==> && r.value.content == ContentId("sha256", cfg.sha(bytes), |bytes|, format)
                          && r.value.chunkSize == cfg.chunkSize && r.value.policy == policy
                          && (i < |r.value.chunks| <==> i * cfg.chunkSize < |bytes|)
                          && (i < |r.value.chunks| ==>
                                var at := i * cfg.chunkSize;
                                var piece := bytes[at..if at + cfg.chunkSize <= |bytes| then at + cfg.chunkSize else |bytes|];
                                r.value.chunks[i] == Chunk(i, cfg.sha(piece), |piece|)))
  {
    hide Pieces, ValidDigest;
    var ps := Pieces(bytes, cfg.chunkSize);
    PiecesFit(bytes, cfg.chunkSize, cfg.maxChunks);
    PiecesFit(bytes, cfg.chunkSize, i);
    if i < |ps| {
      PieceIs(bytes, cfg.chunkSize, i, i * cfg.chunkSize);
    }
  }

  /** A digest is 64 hexadecimal digits of either case. */
  lemma DigestExactly(s: string)
    ensures ValidDigest(s) <==> |s| == 64 && forall c <- s :: c in "0123456789abcdefABCDEF"
  {
    forall c: char
      ensures HexDigit(c) <==> c in "0123456789abcdefABCDEF"
    {
      HexDigitExactly(c);
    }
    assert forall i :: 0 <= i < |s| ==> s[i] in s;
  }

  lemma HexDigitExactly(c: char)
    ensures HexDigit(c) <==> c in "0123456789abcdefABCDEF"
  {
    var all := "0123456789abcdefABCDEF";
    if '0' <= c <= '9' {
      assert all[c as int - '0' as int] == c;
    } else if 'a' <= c <= 'f' {
      assert all[c as int - 'a' as int + 10] == c;
    } else if 'A' <= c <= 'F' {
      assert all[c as int - 'A' as int + 16] == c;
    }
  }

  function Sizes(cs: seq<Chunk>): nat {
    if cs == [] then 0 else Sizes(cs[..|cs| - 1]) + cs[|cs| - 1].size
  }

  /** The chunks are numbered in order, carry digests, and are neither empty nor too large. */
  predicate InOrder(m: Manifest, n: nat)
    requires n <= |m.chunks|
  {
    forall i :: 0 <= i < n ==> ValidDigest(m.chunks[i].digest) && m.chunks[i].index == i && 0 < m.chunks[i].size <= m.chunkSize
  }

  lemma {:induction false} ValidatesTo(m: Manifest, n: nat)
    requires n <= |m.chunks|
    ensures ValidateTo(m, n).Ok? <==> InOrder(m, n) && Sizes(m.chunks[..n]) < U64_LIMIT
    ensures ValidateTo(m, n).Ok? ==> ValidateTo(m, n).value == Sizes(m.chunks[..n])
  {
    hide ValidDigest;
    if n > 0 {
      ValidatesTo(m, n - 1);
      assert m.chunks[..n][..n - 1] == m.chunks[..n - 1];
    }
  }

  lemma {:induction false} SizesPositive(m: Manifest, n: nat)
    requires n <= |m.chunks| && InOrder(m, n)
    ensures Sizes(m.chunks[..n]) >= n
  {
    hide ValidDigest;
    if n > 0 {
      SizesPositive(m, n - 1);
      assert m.chunks[..n][..n - 1] == m.chunks[..n - 1];
    }
  }

  /** A manifest is valid exactly when it names a SHA-256 content as large as its chunks, which are in order and within the limits. */
  lemma ValidatesExactly(cfg: Config, m: Manifest)
    ensures Validate(cfg, m).Ok? <==>
            && ValidDigest(m.content.digest) && m.content.algorithm == "sha256" && m.chunkSize == cfg.chunkSize
            && |m.chunks| <= cfg.maxChunks && InOrder(m, |m.chunks|) && Sizes(m.chunks) == m.content.size < U64_LIMIT
  {
    hide ValidDigest, ValidateTo, InOrder, Sizes;
    ValidatesTo(m, |m.chunks|);
    assert m.chunks[..|m.chunks|] == m.chunks;
    if InOrder(m, |m.chunks|) {
      SizesPositive(m, |m.chunks|);
    }
  }

  // ----- Answers -----

  /** A chunk's file, if there is one, has the size and the hash that its descriptor names. */
  predicate FileMatches(sha: Bytes -> string, files: map<string, Bytes>, c: Chunk) {
    c.digest in files ==> |files[c.digest]| == c.size && sha(files[c.digest]) == c.digest
  }

  /** The missing chunks are those without a file; a file of another size or hash is reported instead. */
  lemma {:induction false} ReportsExactly(sha: Bytes -> string, files: map<string, Bytes>, cs: seq<Chunk>)
    ensures var r := Missing(sha, files, cs);
            && (r.Ok? <==> forall c <- cs :: FileMatches(sha, files, c)) && (r.Err? ==> r.error == Corrupt)
            && (r.Ok? ==> forall i :: i in r.value <==> exists c <- cs :: c.index == i && c.digest !in files)
  {
    if cs != [] {
      var n := |cs| - 1;
      ReportsExactly(sha, files, cs[..n]);
      assert cs == cs[..n] + [cs[n]];
      assert cs[n] in cs && forall c :: c in cs ==> c in cs[..n] || c == cs[n];
    }
  }

  /** A chunk is taken exactly when its upload is announced, it is the one at that place, and a file already there matches; it is stored once. */
  lemma TakesExactly(cfg: Config, f: Files, digest: string, index: nat, bytes: Bytes)
    ensures var (f', r) := WriteChunk(cfg, f, digest, index, bytes);
            && (r.Ok? <==> && ValidDigest(digest) && digest in f.uploads && index < |f.uploads[digest].chunks|
                           && var c := f.uploads[digest].chunks[index];
                           && c.index == index && |bytes| == c.size && cfg.sha(bytes) == c.digest && FileMatches(cfg.sha, f.chunks, c))
            && (r.Ok? ==> && r.value == (cfg.sha(bytes) !in f.chunks)
                          && f' == f.(chunks := if r.value then f.chunks[cfg.sha(bytes) := bytes] else f.chunks))
            && (r.Err? ==> f' == f) && (ValidDigest(digest) && digest !in f.uploads ==> r == Err(Storage))
  {
    hide ValidDigest;
  }

  /** An upload of committed content is answered from its files alone; any other valid one is announced. */
  lemma BeginsExactly(cfg: Config, f: Files, m: Manifest)
    ensures var (f', r) := Begin(cfg, f, m);
            var whole := forall c <- m.chunks :: c.digest in f.chunks && FileMatches(cfg.sha, f.chunks, c);
            && (Validate(cfg, m).Err? ==> f' == f && r.Err?)
            && (Validate(cfg, m).Ok? && m.content.digest in f.manifests ==> f' == f && r == if whole then Ok([]) else Err(Corrupt))
            && (Validate(cfg, m).Ok? && m.content.digest !in f.manifests ==>
                  f' == f.(uploads := f.uploads[m.content.digest := m]) && (r == Ok([]) <==> whole))
  {
    hide Validate, Missing;
    ReportsExactly(cfg.sha, f.chunks, m.chunks);
    MissingNone(cfg.sha, f.chunks, m.chunks);
  }

  /** Every chunk has a file, and it matches. */
  predicate AllMatch(sha: Bytes -> string, files: map<string, Bytes>, cs: seq<Chunk>) {
    Present(files, cs) && forall c <- cs :: FileMatches(sha, files, c)
  }

  lemma {:induction false} ReadsChunks(sha: Bytes -> string, files: map<string, Bytes>, cs: seq<Chunk>)
    ensures ReadChunks(sha, files, cs).Ok? <==> AllMatch(sha, files, cs)
    ensures AllMatch(sha, files, cs) ==> ReadChunks(sha, files, cs) == Ok(Assemble(files, cs))
  {
    if cs != [] {
      var n := |cs| - 1;
      ReadsChunks(sha, files, cs[..n]);
      assert cs == cs[..n] + [cs[n]];
      assert cs[n] in cs && forall c :: c in cs ==> c in cs[..n] || c == cs[n];
    }
  }

  /** Whatever has happened to the files, content reads exactly when it is committed under this id, every chunk file matches and the whole has the digest. */
  lemma ReadsVerified(cfg: Config, f: Files, id: ContentId)
    ensures ReadContent(cfg, f, id).Ok? <==>
            && id.digest in f.manifests && f.manifests[id.digest].content == id
            && AllMatch(cfg.sha, f.chunks, f.manifests[id.digest].chunks)
            && cfg.sha(Assemble(f.chunks, f.manifests[id.digest].chunks)) == id.digest
  {
    hide AllMatch, ReadChunks, Assemble;
    if id.digest in f.manifests {
      ReadsChunks(cfg.sha, f.chunks, f.manifests[id.digest].chunks);
    }
  }
}
