/** The content-addressed chunk store: its files, its operations and its runs. */
module Content {
  import opened Wire
  import opened Outcomes
  import opened Tasks

  datatype Chunk = Chunk(index: nat, digest: string, size: nat)

  datatype Manifest = Manifest(content: ContentId, chunkSize: nat, chunks: seq<Chunk>, policy: string)

  /** `sha` is the hexadecimal SHA-256, as an arbitrary function. */
  datatype Config = Config(sha: Bytes -> string, chunkSize: nat, maxChunks: nat) {
    ghost predicate Good() {
      chunkSize > 0 && maxChunks < U32_LIMIT && forall b :: ValidDigest(sha(b))
    }
  }

  /** The three directories; file names are digests. */
  datatype Files = Files(chunks: map<string, Bytes>, manifests: map<string, Manifest>, uploads: map<string, Manifest>)

  const NO_FILES := Files(map[], map[], map[])

  predicate HexDigit(c: char) {
    '0' <= c <= '9' || 'a' <= c <= 'f' || 'A' <= c <= 'F'
  }

  predicate ValidDigest(s: string) {
    |s| == 64 && forall i :: 0 <= i < |s| ==> HexDigit(s[i])
  }

  // ----- Manifests -----

  /** `bytes.chunks(n)`. */
  function Pieces(b: Bytes, n: nat): (ps: seq<Bytes>)
    requires n > 0
    ensures forall p <- ps :: 0 < |p| <= n
    ensures |ps| <= |b|
  {
    if b == [] then [] else if |b| <= n then [b] else [b[..n]] + Pieces(b[n..], n)
  }

  function Join(ps: seq<Bytes>): Bytes {
    if ps == [] then [] else Join(ps[..|ps| - 1]) + ps[|ps| - 1]
  }

  function Describe(sha: Bytes -> string, ps: seq<Bytes>): seq<Chunk> {
    seq(|ps|, i requires 0 <= i < |ps| => Chunk(i, sha(ps[i]), |ps[i]|))
  }

  function BuildManifest(cfg: Config, bytes: Bytes, format: string, policy: string): Result<Manifest>
    requires cfg.chunkSize > 0
  {
    var ps := Pieces(bytes, cfg.chunkSize);
    if |ps| > cfg.maxChunks then Err(CapacityExceeded)
    else Ok(Manifest(ContentId("sha256", cfg.sha(bytes), |bytes|, format), cfg.chunkSize, Describe(cfg.sha, ps), policy))
  }

  /** The size of the first `n` chunks, if they are well-formed. */
  function ValidateTo(m: Manifest, n: nat): Result<nat>
    requires n <= |m.chunks|
  {
    if n == 0 then Ok(0)
    else
      var c := m.chunks[n - 1];
      match ValidateTo(m, n - 1)
      case Err(e) => Err(e)
      case Ok(total) =>
        if !ValidDigest(c.digest) || c.index != n - 1 || c.size == 0 || c.size > m.chunkSize then Err(Protocol)
        else if total + c.size >= U64_LIMIT then Err(CapacityExceeded)
        else Ok(total + c.size)
  }

  function Validate(cfg: Config, m: Manifest): Result<()> {
    if !ValidDigest(m.content.digest) || m.content.algorithm != "sha256"
       || m.chunkSize != cfg.chunkSize || |m.chunks| > cfg.maxChunks
    then Err(Protocol)
    else
      match ValidateTo(m, |m.chunks|)
      case Err(e) => Err(e)
      case Ok(total) => if total != m.content.size || (m.content.size == 0 && m.chunks != []) then Err(Protocol) else Ok(())
  }

  // ----- Operations -----

  predicate Matches(sha: Bytes -> string, bytes: Bytes, c: Chunk) {
    |bytes| == c.size && sha(bytes) == c.digest
  }

  /** The indices of the chunks without a file; a file that does not match is an error. */
  function Missing(sha: Bytes -> string, files: map<string, Bytes>, cs: seq<Chunk>): Result<seq<nat>> {
    if cs == [] then Ok([])
    else
      var c := cs[|cs| - 1];
      match Missing(sha, files, cs[..|cs| - 1])
      case Err(e) => Err(e)
      case Ok(missing) =>
        if c.digest !in files then Ok(missing + [c.index])
        else if Matches(sha, files[c.digest], c) then Ok(missing) else Err(Corrupt)
  }

  function Begin(cfg: Config, f: Files, m: Manifest): (Files, Result<seq<nat>>) {
    var valid, missing := Validate(cfg, m), Missing(cfg.sha, f.chunks, m.chunks);
    if valid.Err? then (f, Err(valid.error))
    else if m.content.digest in f.manifests then
      (f, if missing.Err? then missing else if missing.value == [] then missing else Err(Corrupt))
    else (f.(uploads := f.uploads[m.content.digest := m]), missing)
  }

  function WriteChunk(cfg: Config, f: Files, digest: string, index: nat, bytes: Bytes): (Files, Result<bool>) {
    if !ValidDigest(digest) then (f, Err(Protocol))
    else if digest !in f.uploads then (f, Err(Storage))
    else
      var cs := f.uploads[digest].chunks;
      if index >= |cs| || cs[index].index != index then (f, Err(Protocol))
      else
        var c := cs[index];
        if !Matches(cfg.sha, bytes, c) then (f, Err(Corrupt))
        else if c.digest in f.chunks then (f, if Matches(cfg.sha, f.chunks[c.digest], c) then Ok(false) else Err(Corrupt))
        else (f.(chunks := f.chunks[c.digest := bytes]), Ok(true))
  }

  predicate Present(files: map<string, Bytes>, cs: seq<Chunk>) {
    forall c <- cs :: c.digest in files
  }

  /** The contents of chunk files in order. */
  function Assemble(files: map<string, Bytes>, cs: seq<Chunk>): Bytes
    requires Present(files, cs)
  {
    if cs == [] then [] else Assemble(files, cs[..|cs| - 1]) + files[cs[|cs| - 1].digest]
  }

  lemma MissingNone(sha: Bytes -> string, files: map<string, Bytes>, cs: seq<Chunk>)
    ensures Missing(sha, files, cs) == Ok([]) <==> Present(files, cs) && forall c <- cs :: Matches(sha, files[c.digest], c)
  {
    hide Matches;
    if cs != [] {
      var n := |cs| - 1;
      MissingNone(sha, files, cs[..n]);
      assert cs == cs[..n] + [cs[n]];
    }
  }

  function Complete(cfg: Config, f: Files, digest: string): (Files, Result<Manifest>) {
    if !ValidDigest(digest) then (f, Err(Protocol))
    else if digest !in f.uploads then (f, Err(Storage))
    else
      var m := f.uploads[digest];
      var missing := Missing(cfg.sha, f.chunks, m.chunks);
      if missing.Err? then (f, Err(missing.error))
      else if missing.value != [] then (f, Err(DurabilityUnavailable))
      else
        MissingNone(cfg.sha, f.chunks, m.chunks);
        var bytes := Assemble(f.chunks, m.chunks);
        if |bytes| != m.content.size || cfg.sha(bytes) != m.content.digest then (f, Err(Corrupt))
        else (f.(manifests := f.manifests[digest := m], uploads := f.uploads - {digest}), Ok(m))
  }

  function ReadContent(cfg: Config, f: Files, id: ContentId): Result<Bytes> {
    if id.digest !in f.manifests then Err(Storage)
    else
      var m := f.manifests[id.digest];
      if m.content != id then Err(Corrupt)
      else
        match ReadChunks(cfg.sha, f.chunks, m.chunks)
        case Err(e) => Err(e)
        case Ok(bytes) => if cfg.sha(bytes) != id.digest then Err(Corrupt) else Ok(bytes)
  }

  /** The contents of chunk files, each verified as it is read. */
  function ReadChunks(sha: Bytes -> string, files: map<string, Bytes>, cs: seq<Chunk>): Result<Bytes> {
    if cs == [] then Ok([])
    else
      var c := cs[|cs| - 1];
      match ReadChunks(sha, files, cs[..|cs| - 1])
      case Err(e) => Err(e)
      case Ok(bytes) =>
        if c.digest !in files then Err(Storage)
        else if !Matches(sha, files[c.digest], c) then Err(Corrupt)
        else Ok(bytes + files[c.digest])
  }

  function Referenced(manifests: map<string, Manifest>): set<string> {
    set d <- manifests, c <- manifests[d].chunks :: c.digest
  }

  /** `remove_content` drops a manifest, then every chunk that no committed manifest names. */
  function Remove(f: Files, id: ContentId): Files {
    if id.digest !in f.manifests then f
    else
      var manifests := f.manifests - {id.digest};
      f.(manifests := manifests, chunks := map d <- f.chunks | d in Referenced(manifests) :: f.chunks[d])
  }

  // ----- Direct puts -----

  datatype Stats = Stats(uploaded: nat, reused: nat, bytes: nat)

  function PutPieces(cfg: Config, f: Files, digest: string, ps: seq<Bytes>, missing: seq<nat>, i: nat, stats: Stats): (Files, Result<Stats>)
    requires i <= |ps|
    decreases |ps| - i
  {
    if i == |ps| then (f, Ok(stats))
    else if i !in missing then PutPieces(cfg, f, digest, ps, missing, i + 1, stats.(reused := stats.reused + 1))
    else
      var (f', r) := WriteChunk(cfg, f, digest, i, ps[i]);
      if r.Err? then (f', Err(r.error))
      else
        var next := if r.value then Stats(stats.uploaded + 1, stats.reused, stats.bytes + |ps[i]|) else stats.(reused := stats.reused + 1);
        PutPieces(cfg, f', digest, ps, missing, i + 1, next)
  }

  function PutBytes(cfg: Config, f: Files, bytes: Bytes, format: string, policy: string): (Files, Result<(Manifest, Stats)>)
    requires cfg.chunkSize > 0
  {
    var built := BuildManifest(cfg, bytes, format, policy);
    if built.Err? then (f, Err(built.error))
    else
      var m := built.value;
      var digest := m.content.digest;
      if digest in f.manifests then (f, Ok((m, Stats(0, |m.chunks|, 0))))
      else
        var (f1, missing) := Begin(cfg, f, m);
        if missing.Err? then (f1, Err(missing.error))
        else
          var (f2, stats) := PutPieces(cfg, f1, digest, Pieces(bytes, cfg.chunkSize), missing.value, 0, Stats(0, 0, 0));
          if stats.Err? then (f2, Err(stats.error))
          else
            var (f3, done) := Complete(cfg, f2, digest);
            (f3, if done.Err? then Err(done.error) else Ok((m, stats.value)))
  }

  // ----- Runs -----

  datatype StoreEvent =
    | BeginEvent(manifest: Manifest)
    | WriteEvent(digest: string, index: nat, bytes: Bytes)
    | CompleteEvent(digest: string)
    | RemoveEvent(id: ContentId)

  function StoreStep(cfg: Config, f: Files, e: StoreEvent): Files {
    match e
    case BeginEvent(m) => Begin(cfg, f, m).0
    case WriteEvent(digest, index, bytes) => WriteChunk(cfg, f, digest, index, bytes).0
    case CompleteEvent(digest) => Complete(cfg, f, digest).0
    case RemoveEvent(id) => Remove(f, id)
  }

  function StoreRun(cfg: Config, f: Files, events: seq<StoreEvent>): Files {
    if events == [] then f else StoreStep(cfg, StoreRun(cfg, f, events[..|events| - 1]), events[|events| - 1])
  }
}
