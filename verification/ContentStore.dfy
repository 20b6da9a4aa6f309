/** The chunk store as an object over its directories, with the loops of its operations. */
module ContentStores {
  import opened Wire
  import opened Outcomes
  import opened Tasks
  import opened Content
  import opened ContentTheorems

  class ContentStore {
    const cfg: Config
    var chunks: map<string, Bytes>
    var manifests: map<string, Manifest>
    var uploads: map<string, Manifest>

    function View(): Files
      reads this
    {
      Files(chunks, manifests, uploads)
    }

    /** `open` over directories that an earlier store may have filled; zero-sized chunks are refused. */
    constructor (cfg: Config, files: Files)
      requires cfg.chunkSize > 0
      ensures this.cfg == cfg && View() == files
    {
      this.cfg := cfg;
      chunks, manifests, uploads := files.chunks, files.manifests, files.uploads;
    }

    /** `bytes.chunks(chunk_size)`. */
    method Split(bytes: Bytes) returns (ps: seq<Bytes>)
      requires cfg.chunkSize > 0
      ensures ps == Pieces(bytes, cfg.chunkSize)
    {
      ps := [];
      var rest := bytes;
      while rest != []
        invariant ps + Pieces(rest, cfg.chunkSize) == Pieces(bytes, cfg.chunkSize)
        decreases |rest|
      {
        var n := if |rest| <= cfg.chunkSize then |rest| else cfg.chunkSize;
        assert rest[..n] == if |rest| <= cfg.chunkSize then rest else rest[..n];
        ps, rest := ps + [rest[..n]], rest[n..];
      }
    }

    method Build(bytes: Bytes, format: string, policy: string) returns (r: Result<Manifest>)
      requires cfg.chunkSize > 0
      ensures r == BuildManifest(cfg, bytes, format, policy)
    {
      hide Pieces;
      var ps := Split(bytes);
      var descriptors := [];
      for i := 0 to |ps|
        invariant |descriptors| == i && forall j :: 0 <= j < i ==> descriptors[j] == Chunk(j, cfg.sha(ps[j]), |ps[j]|)
      {
        descriptors := descriptors + [Chunk(i, cfg.sha(ps[i]), |ps[i]|)];
      }
      if |descriptors| > cfg.maxChunks {
        return Err(CapacityExceeded);
      }
      assert descriptors == Describe(cfg.sha, ps);
      return Ok(Manifest(ContentId("sha256", cfg.sha(bytes), |bytes|, format), cfg.chunkSize, descriptors, policy));
    }

    method MissingChunks(m: Manifest) returns (r: Result<seq<nat>>)
      ensures r == Missing(cfg.sha, chunks, m.chunks)
    {
      hide Matches;
      var missing: seq<nat> := [];
      for i := 0 to |m.chunks|
        invariant Missing(cfg.sha, chunks, m.chunks[..i]) == Ok(missing)
      {
        var c := m.chunks[i];
        assert m.chunks[..i + 1][..i] == m.chunks[..i];
        if c.digest !in chunks {
          missing := missing + [c.index];
        } else if !Matches(cfg.sha, chunks[c.digest], c) {
          MissingStops(cfg.sha, chunks, m.chunks, i + 1);
          return Err(Corrupt);
        }
      }
      assert m.chunks[..|m.chunks|] == m.chunks;
      return Ok(missing);
    }

    method BeginUpload(m: Manifest) returns (r: Result<seq<nat>>)
      modifies this`uploads
      ensures (View(), r) == Begin(cfg, old(View()), m)
    {
      hide Validate, Missing;
      var valid := Validate(cfg, m);
      if valid.Err? {
        return Err(valid.error);
      }
      if m.content.digest in manifests {
        r := MissingChunks(m);
        return if r.Ok? && r.value != [] then Err(Corrupt) else r;
      }
      uploads := uploads[m.content.digest := m];
      r := MissingChunks(m);
    }

    method Write(digest: string, index: nat, bytes: Bytes) returns (r: Result<bool>)
      modifies this`chunks
      ensures (View(), r) == WriteChunk(cfg, old(View()), digest, index, bytes)
    {
      hide ValidDigest, Matches;
      if !ValidDigest(digest) {
        return Err(Protocol);
      }
      if digest !in uploads {
        return Err(Storage);
      }
      var cs := uploads[digest].chunks;
      if index >= |cs| || cs[index].index != index {
        return Err(Protocol);
      }
      if !Matches(cfg.sha, bytes, cs[index]) {
        return Err(Corrupt);
      }
      if cs[index].digest in chunks {
        return if Matches(cfg.sha, chunks[cs[index].digest], cs[index]) then Ok(false) else Err(Corrupt);
      }
      chunks := chunks[cs[index].digest := bytes];
      return Ok(true);
    }

    /** The loop that hashes the chunk files in order. */
    method Concatenate(m: Manifest) returns (bytes: Bytes)
      requires Present(chunks, m.chunks)
      ensures bytes == Assemble(chunks, m.chunks)
    {
      bytes := [];
      for i := 0 to |m.chunks|
        invariant bytes == Assemble(chunks, m.chunks[..i])
      {
        assert m.chunks[..i + 1][..i] == m.chunks[..i];
        bytes := bytes + chunks[m.chunks[i].digest];
      }
      assert m.chunks[..|m.chunks|] == m.chunks;
    }

    method CompleteUpload(digest: string) returns (r: Result<Manifest>)
      modifies this`manifests, this`uploads
      ensures (View(), r) == Complete(cfg, old(View()), digest)
    {
      hide ValidDigest, Missing, Assemble, Matches;
      if !ValidDigest(digest) {
        return Err(Protocol);
      }
      if digest !in uploads {
        return Err(Storage);
      }
      var m := uploads[digest];
      var missing := MissingChunks(m);
      if missing.Err? {
        return Err(missing.error);
      }
      if missing.value != [] {
        return Err(DurabilityUnavailable);
      }
      MissingNone(cfg.sha, chunks, m.chunks);
      var bytes := Concatenate(m);
      if |bytes| != m.content.size || cfg.sha(bytes) != m.content.digest {
        return Err(Corrupt);
      }
      manifests, uploads := manifests[digest := m], uploads - {digest};
      return Ok(m);
    }

    /** The loop of `put_bytes`: writes what was missing and counts what was already there. */
    method PutMissing(digest: string, ps: seq<Bytes>, missing: seq<nat>) returns (r: Result<Stats>)
      modifies this`chunks
      ensures (View(), r) == PutPieces(cfg, old(View()), digest, ps, missing, 0, Stats(0, 0, 0))
    {
      hide WriteChunk;
      var i, stats := 0, Stats(0, 0, 0);
      while i < |ps|
        invariant i <= |ps|
        invariant PutPieces(cfg, View(), digest, ps, missing, i, stats) == PutPieces(cfg, old(View()), digest, ps, missing, 0, Stats(0, 0, 0))
      {
        if i !in missing {
          stats := stats.(reused := stats.reused + 1);
        } else {
          var written := Write(digest, i, ps[i]);
          if written.Err? {
            return Err(written.error);
          }
          stats := if written.value then Stats(stats.uploaded + 1, stats.reused, stats.bytes + |ps[i]|) else stats.(reused := stats.reused + 1);
        }
        i := i + 1;
      }
      return Ok(stats);
    }

    method Put(bytes: Bytes, format: string, policy: string) returns (r: Result<(Manifest, Stats)>)
      requires cfg.chunkSize > 0
      modifies this`chunks, this`manifests, this`uploads
      ensures (View(), r) == PutBytes(cfg, old(View()), bytes, format, policy)
    {
      hide Pieces, Begin, PutPieces, Complete, Describe;
      var built := Build(bytes, format, policy);
      if built.Err? {
        return Err(built.error);
      }
      var m := built.value;
      if m.content.digest in manifests {
        return Ok((m, Stats(0, |m.chunks|, 0)));
      }
      var missing := BeginUpload(m);
      if missing.Err? {
        return Err(missing.error);
      }
      var ps := Split(bytes);
      var stats := PutMissing(m.content.digest, ps, missing.value);
      if stats.Err? {
        return Err(stats.error);
      }
      var done := CompleteUpload(m.content.digest);
      return if done.Err? then Err(done.error) else Ok((m, stats.value));
    }

    method Read(id: ContentId) returns (r: Result<Bytes>)
      ensures r == ReadContent(cfg, View(), id)
    {
      hide Matches;
      if id.digest !in manifests {
        return Err(Storage);
      }
      var m := manifests[id.digest];
      if m.content != id {
        return Err(Corrupt);
      }
      var bytes: Bytes := [];
      for i := 0 to |m.chunks|
        invariant ReadChunks(cfg.sha, chunks, m.chunks[..i]) == Ok(bytes)
      {
        var c := m.chunks[i];
        assert m.chunks[..i + 1][..i] == m.chunks[..i];
        if c.digest !in chunks {
          ReadStops(cfg.sha, chunks, m.chunks, i + 1, Storage);
          return Err(Storage);
        }
        if !Matches(cfg.sha, chunks[c.digest], c) {
          ReadStops(cfg.sha, chunks, m.chunks, i + 1, Corrupt);
          return Err(Corrupt);
        }
        bytes := bytes + chunks[c.digest];
      }
      assert m.chunks[..|m.chunks|] == m.chunks;
      return if cfg.sha(bytes) != id.digest then Err(Corrupt) else Ok(bytes);
    }

    /** `referenced_chunks`: the digests that the committed manifests name. */
    method ReferencedChunks() returns (names: set<string>)
      ensures names == Referenced(manifests)
    {
      names := {};
      var rest := manifests.Keys;
      while rest != {}
        invariant rest <= manifests.Keys && names == set d <- manifests.Keys - rest, c <- manifests[d].chunks :: c.digest
        decreases rest
      {
        var d :| d in rest;
        names := names + set c <- manifests[d].chunks :: c.digest;
        rest := rest - {d};
      }
    }

    method RemoveContent(id: ContentId)
      modifies this`manifests, this`chunks
      ensures View() == Remove(old(View()), id)
    {
      hide Referenced;
      if id.digest !in manifests {
        return;
      }
      manifests := manifests - {id.digest};
      var names := ReferencedChunks();
      var rest := chunks.Keys;
      while rest != {}
        invariant rest <= old(chunks).Keys && manifests == old(manifests) - {id.digest}
        invariant chunks == map d <- old(chunks) | d in rest || d in names :: old(chunks)[d]
        decreases rest
      {
        var d :| d in rest;
        if d !in names {
          chunks := chunks - {d};
        }
        rest := rest - {d};
      }
    }
  }

  lemma {:induction false} MissingStops(sha: Bytes -> string, files: map<string, Bytes>, cs: seq<Chunk>, k: nat)
    requires k <= |cs| && Missing(sha, files, cs[..k]) == Err(Corrupt)
    ensures Missing(sha, files, cs) == Err(Corrupt)
    decreases |cs|
  {
    hide Matches;
    if k == |cs| {
      assert cs[..k] == cs;
    } else {
      assert cs[..|cs| - 1][..k] == cs[..k];
      MissingStops(sha, files, cs[..|cs| - 1], k);
    }
  }

  lemma {:induction false} ReadStops(sha: Bytes -> string, files: map<string, Bytes>, cs: seq<Chunk>, k: nat, e: Error)
    requires k <= |cs| && ReadChunks(sha, files, cs[..k]) == Err(e)
    ensures ReadChunks(sha, files, cs) == Err(e)
    decreases |cs|
  {
    hide Matches;
    if k == |cs| {
      assert cs[..k] == cs;
    } else {
      assert cs[..|cs| - 1][..k] == cs[..k];
      ReadStops(sha, files, cs[..|cs| - 1], k, e);
    }
  }
}
