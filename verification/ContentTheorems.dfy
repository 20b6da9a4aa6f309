/** What every run of the chunk store keeps, and what its puts, uploads and removals mean. */
module ContentTheorems {
  import opened Wire
  import opened Hashing
  import opened Outcomes
  import opened Tasks
  import opened Content

  // ----- The invariant -----

  /** Every committed chunk has its file, and together they are the content that was named. */
  predicate Sound(cfg: Config, f: Files, digest: string, m: Manifest) {
    && m.content.digest == digest && Present(f.chunks, m.chunks)
    && (forall c <- m.chunks :: Matches(cfg.sha, f.chunks[c.digest], c))
    && cfg.sha(Assemble(f.chunks, m.chunks)) == digest && |Assemble(f.chunks, m.chunks)| == m.content.size
  }

  predicate Pending(cfg: Config, digest: string, m: Manifest) {
    m.content.digest == digest && Validate(cfg, m).Ok?
  }

  predicate FilesOk(cfg: Config, f: Files) {
    && (forall d <- f.chunks :: cfg.sha(f.chunks[d]) == d)
    && (forall d <- f.manifests :: Sound(cfg, f, d, f.manifests[d]))
    && (forall d <- f.uploads :: d !in f.manifests && Pending(cfg, d, f.uploads[d]))
  }

  lemma {:induction false} AssembleSame(a: map<string, Bytes>, b: map<string, Bytes>, cs: seq<Chunk>)
    requires Present(a, cs) && Present(b, cs) && forall c <- cs :: a[c.digest] == b[c.digest]
    ensures Assemble(a, cs) == Assemble(b, cs)
  {
    if cs != [] {
      var n := |cs| - 1;
      assert cs[n] in cs;
      AssembleSame(a, b, cs[..n]);
    }
  }

  /** Chunk files may come and go as long as a manifest's own stay as they are. */
  lemma SoundKept(cfg: Config, f: Files, f': Files, digest: string, m: Manifest)
    requires Sound(cfg, f, digest, m) && forall c <- m.chunks :: c.digest in f'.chunks && f'.chunks[c.digest] == f.chunks[c.digest]
    ensures Sound(cfg, f', digest, m)
  {
    hide Matches;
    AssembleSame(f.chunks, f'.chunks, m.chunks);
  }

  lemma WriteKeeps(cfg: Config, f: Files, digest: string, index: nat, bytes: Bytes)
    requires FilesOk(cfg, f)
    ensures FilesOk(cfg, WriteChunk(cfg, f, digest, index, bytes).0)
  {
    hide Sound, Pending, ValidDigest;
    var f' := WriteChunk(cfg, f, digest, index, bytes).0;
    forall d | d in f.manifests
      ensures Sound(cfg, f', d, f.manifests[d])
    {
      assert Present(f.chunks, f.manifests[d].chunks) by { SoundPresent(cfg, f, d, f.manifests[d]); }
      SoundKept(cfg, f, f', d, f.manifests[d]);
    }
  }

  lemma SoundPresent(cfg: Config, f: Files, digest: string, m: Manifest)
    requires Sound(cfg, f, digest, m)
    ensures Present(f.chunks, m.chunks) && m.content.digest == digest
  {
  }

  lemma CompleteKeeps(cfg: Config, f: Files, digest: string)
    requires FilesOk(cfg, f)
    ensures FilesOk(cfg, Complete(cfg, f, digest).0)
    ensures Complete(cfg, f, digest).1.Ok? ==>
            && digest in f.uploads && f.uploads[digest] == Complete(cfg, f, digest).1.value
            && Sound(cfg, Complete(cfg, f, digest).0, digest, f.uploads[digest])
  {
    hide Matches, ValidDigest, Missing, Validate;
    var (f', r) := Complete(cfg, f, digest);
    if r.Ok? {
      MissingNone(cfg.sha, f.chunks, r.value.chunks);
      assert Sound(cfg, f', digest, r.value);
      forall d | d in f.manifests
        ensures Sound(cfg, f', d, f.manifests[d])
      {
        SoundKept(cfg, f, f', d, f.manifests[d]);
      }
    }
  }

  lemma RemoveKeeps(cfg: Config, f: Files, id: ContentId)
    requires FilesOk(cfg, f)
    ensures FilesOk(cfg, Remove(f, id))
  {
    hide Pending, Matches;
    var f' := Remove(f, id);
    forall d | d in f'.manifests
      ensures Sound(cfg, f', d, f.manifests[d])
    {
      KeptChunks(f, id, d);
      SoundKept(cfg, f, f', d, f.manifests[d]);
    }
  }

  /** Collection spares every chunk of the manifests that stay, shared ones included. */
  lemma KeptChunks(f: Files, id: ContentId, digest: string)
    requires digest in Remove(f, id).manifests && Present(f.chunks, f.manifests[digest].chunks)
    ensures var f' := Remove(f, id);
            forall c <- f.manifests[digest].chunks :: c.digest in f'.chunks && f'.chunks[c.digest] == f.chunks[c.digest]
  {
    var f' := Remove(f, id);
    forall c | c in f.manifests[digest].chunks
      ensures c.digest in f'.chunks
    {
      assert f'.manifests[digest] == f.manifests[digest];
      assert c.digest in Referenced(f'.manifests);
    }
  }

  lemma BeginKeeps(cfg: Config, f: Files, m: Manifest)
    requires FilesOk(cfg, f)
    ensures FilesOk(cfg, Begin(cfg, f, m).0)
  {
    hide Sound, ValidateTo, Missing, ValidDigest;
    var f' := Begin(cfg, f, m).0;
    forall d | d in f.manifests
      ensures Sound(cfg, f', d, f.manifests[d])
    {
      SoundPresent(cfg, f, d, f.manifests[d]);
      SoundKept(cfg, f, f', d, f.manifests[d]);
    }
  }

  lemma StoreKeeps(cfg: Config, f: Files, e: StoreEvent)
    requires FilesOk(cfg, f)
    ensures FilesOk(cfg, StoreStep(cfg, f, e))
  {
    hide FilesOk, Begin, WriteChunk, Complete, Remove;
    match e
    case BeginEvent(m) => BeginKeeps(cfg, f, m);
    case WriteEvent(digest, index, bytes) => WriteKeeps(cfg, f, digest, index, bytes);
    case CompleteEvent(digest) => CompleteKeeps(cfg, f, digest);
    case RemoveEvent(id) => RemoveKeeps(cfg, f, id);
  }

  /** In every run, however uploads, completions and removals interleave, every committed content is whole. */
  lemma {:induction false} EveryRunWhole(cfg: Config, f: Files, events: seq<StoreEvent>)
    requires FilesOk(cfg, f)
    ensures FilesOk(cfg, StoreRun(cfg, f, events))
    decreases |events|
  {
    hide FilesOk, StoreStep;
    if events != [] {
      EveryRunWhole(cfg, f, events[..|events| - 1]);
      StoreKeeps(cfg, StoreRun(cfg, f, events[..|events| - 1]), events[|events| - 1]);
    }
  }

  // ----- Reading -----

  lemma {:induction false} ReadChunksIs(sha: Bytes -> string, files: map<string, Bytes>, cs: seq<Chunk>)
    requires Present(files, cs) && forall c <- cs :: Matches(sha, files[c.digest], c)
    ensures ReadChunks(sha, files, cs) == Ok(Assemble(files, cs))
  {
    hide Matches;
    if cs != [] {
      var n := |cs| - 1;
      assert cs[n] in cs;
      ReadChunksIs(sha, files, cs[..n]);
    }
  }

  /** A content reads exactly when its id is the committed one of its digest. */
  lemma ReadExactly(cfg: Config, f: Files, id: ContentId)
    requires FilesOk(cfg, f)
    ensures id.digest !in f.manifests ==> ReadContent(cfg, f, id) == Err(Storage)
    ensures id.digest in f.manifests ==>
            && Present(f.chunks, f.manifests[id.digest].chunks)
            && ReadContent(cfg, f, id) ==
               (if f.manifests[id.digest].content == id then Ok(Assemble(f.chunks, f.manifests[id.digest].chunks)) else Err(Corrupt))
    ensures ReadContent(cfg, f, id).Ok? ==>
            cfg.sha(ReadContent(cfg, f, id).value) == id.digest && |ReadContent(cfg, f, id).value| == id.size
  {
    hide Matches, Assemble, ReadChunks, Pending;
    if id.digest in f.manifests {
      var m := f.manifests[id.digest];
      assert Sound(cfg, f, id.digest, m);
      ReadChunksIs(cfg.sha, f.chunks, m.chunks);
    }
  }

  /** No step but the removal of its own digest changes what a committed content reads. */
  lemma StepReads(cfg: Config, f: Files, e: StoreEvent, id: ContentId)
    requires FilesOk(cfg, f) && id.digest in f.manifests && !(e.RemoveEvent? && e.id.digest == id.digest)
    ensures var f' := StoreStep(cfg, f, e);
            id.digest in f'.manifests && f'.manifests[id.digest] == f.manifests[id.digest] && ReadContent(cfg, f', id) == ReadContent(cfg, f, id)
  {
    hide Matches, Missing, Validate, ValidDigest, ReadContent, Sound;
    var f', m := StoreStep(cfg, f, e), f.manifests[id.digest];
    StoreKeeps(cfg, f, e);
    SoundPresent(cfg, f, id.digest, m);
    if e.RemoveEvent? {
      KeptChunks(f, e.id, id.digest);
    }
    ReadExactly(cfg, f, id);
    ReadExactly(cfg, f', id);
    AssembleSame(f.chunks, f'.chunks, m.chunks);
  }

  lemma {:induction false} RunReads(cfg: Config, f: Files, events: seq<StoreEvent>, id: ContentId)
    requires FilesOk(cfg, f) && id.digest in f.manifests && forall e <- events :: !(e.RemoveEvent? && e.id.digest == id.digest)
    ensures var f' := StoreRun(cfg, f, events);
            id.digest in f'.manifests && f'.manifests[id.digest] == f.manifests[id.digest] && ReadContent(cfg, f', id) == ReadContent(cfg, f, id)
    decreases |events|
  {
    hide FilesOk, StoreStep, ReadContent;
    if events != [] {
      var n := |events| - 1;
      assert events[n] in events;
      RunReads(cfg, f, events[..n], id);
      EveryRunWhole(cfg, f, events[..n]);
      StepReads(cfg, StoreRun(cfg, f, events[..n]), events[n], id);
    }
  }

  /** Removing one content leaves every other one readable as before, and only that one unreadable. */
  lemma RemovalExactly(cfg: Config, f: Files, gone: ContentId, id: ContentId)
    requires FilesOk(cfg, f)
    ensures ReadContent(cfg, Remove(f, gone), id) == if id.digest == gone.digest then Err(Storage) else ReadContent(cfg, f, id)
  {
    hide FilesOk, ReadContent;
    RemoveKeeps(cfg, f, gone);
    if id.digest in f.manifests && id.digest != gone.digest {
      StepReads(cfg, f, RemoveEvent(gone), id);
    } else {
      ReadExactly(cfg, f, id);
      ReadExactly(cfg, Remove(f, gone), id);
    }
  }

  // ----- Pieces -----

  lemma {:induction false} JoinCons(p: Bytes, ps: seq<Bytes>)
    ensures Join([p] + ps) == p + Join(ps)
  {
    if ps == [] {
      assert [p] + ps == [p] && [p][..0] == [];
    } else {
      var n := |ps| - 1;
      JoinCons(p, ps[..n]);
      assert ([p] + ps)[..n + 1] == [p] + ps[..n];
      assert (p + Join(ps[..n])) + ps[n] == p + (Join(ps[..n]) + ps[n]);
    }
  }

  lemma JoinNone()
    ensures Join([]) == []
  {
  }

  lemma {:induction false} JoinPieces(b: Bytes, n: nat)
    requires n > 0
    ensures Join(Pieces(b, n)) == b
    decreases |b|
  {
    hide Join;
    if |b| <= n {
      JoinCons(b, []);
      JoinNone();
      assert b != [] ==> [b] + [] == [b];
    } else {
      JoinCons(b[..n], Pieces(b[n..], n));
      JoinPieces(b[n..], n);
    }
  }

  /** The chunk files of a content hold exactly its pieces. */
  predicate Holds(sha: Bytes -> string, files: map<string, Bytes>, ps: seq<Bytes>) {
    forall i :: 0 <= i < |ps| ==> sha(ps[i]) in files ==> files[sha(ps[i])] == ps[i]
  }

  function AllOf(ps: seq<Bytes>): set<Bytes> {
    set p <- ps
  }

  lemma ApartHolds(cfg: Config, f: Files, ps: seq<Bytes>)
    requires FilesOk(cfg, f) && Apart(cfg.sha, f.chunks.Values + AllOf(ps))
    ensures Holds(cfg.sha, f.chunks, ps)
  {
    hide Sound, Pending;
    forall i | 0 <= i < |ps| && cfg.sha(ps[i]) in f.chunks
      ensures f.chunks[cfg.sha(ps[i])] == ps[i]
    {
      assert ps[i] in AllOf(ps) && f.chunks[cfg.sha(ps[i])] in f.chunks.Values;
    }
  }

  lemma {:induction false} AssemblePieces(sha: Bytes -> string, files: map<string, Bytes>, ps: seq<Bytes>)
    requires Holds(sha, files, ps) && Present(files, Describe(sha, ps))
    ensures Assemble(files, Describe(sha, ps)) == Join(ps)
  {
    if ps != [] {
      var n := |ps| - 1;
      var cs := Describe(sha, ps);
      assert cs[..n] == Describe(sha, ps[..n]);
      assert cs[n] in cs && cs[n].digest == sha(ps[n]);
      assert forall c :: c in cs[..n] ==> c in cs;
      AssemblePieces(sha, files, ps[..n]);
    }
  }

  lemma {:induction false} MissingPieces(sha: Bytes -> string, files: map<string, Bytes>, ps: seq<Bytes>)
    requires Holds(sha, files, ps)
    ensures var r := Missing(sha, files, Describe(sha, ps));
            && r.Ok? && (forall i :: i in r.value <==> 0 <= i < |ps| && sha(ps[i]) !in files)
            && (r.value == [] <==> Present(files, Describe(sha, ps)))
  {
    if ps != [] {
      var n := |ps| - 1;
      var cs := Describe(sha, ps);
      assert cs[..n] == Describe(sha, ps[..n]) && cs[n] == Chunk(n, sha(ps[n]), |ps[n]|);
      MissingPieces(sha, files, ps[..n]);
      assert cs == cs[..n] + [cs[n]];
    }
  }

  lemma {:induction false} BuiltSizes(cfg: Config, m: Manifest, ps: seq<Bytes>, n: nat)
    requires cfg.Good() && m.chunks == Describe(cfg.sha, ps) && n <= |ps| && m.chunkSize == cfg.chunkSize
    requires |Join(ps[..n])| < U64_LIMIT && forall p <- ps :: 0 < |p| <= cfg.chunkSize
    ensures ValidateTo(m, n) == Ok(|Join(ps[..n])|)
  {
    if n > 0 {
      assert ps[..n][..n - 1] == ps[..n - 1];
      assert ps[n - 1] in ps;
      BuiltSizes(cfg, m, ps, n - 1);
    }
  }

  /** A manifest that is built passes validation. */
  lemma BuiltValid(cfg: Config, bytes: Bytes, format: string, policy: string)
    requires cfg.Good() && |bytes| < U64_LIMIT && BuildManifest(cfg, bytes, format, policy).Ok?
    ensures Validate(cfg, BuildManifest(cfg, bytes, format, policy).value).Ok?
  {
    hide ValidDigest, Pieces, ValidateTo;
    var ps, m := Pieces(bytes, cfg.chunkSize), BuildManifest(cfg, bytes, format, policy).value;
    JoinPieces(bytes, cfg.chunkSize);
    assert ps[..|ps|] == ps;
    BuiltSizes(cfg, m, ps, |ps|);
    assert |ps| <= |bytes|;
  }

  // ----- Uploads -----

  /** The upload of these bytes is pending. */
  predicate Uploading(cfg: Config, f: Files, bytes: Bytes, m: Manifest)
    requires cfg.chunkSize > 0
  {
    && m.content.digest in f.uploads && f.uploads[m.content.digest] == m
    && m.content.digest == cfg.sha(bytes) && m.content.size == |bytes| && m.chunks == Describe(cfg.sha, Pieces(bytes, cfg.chunkSize))
  }

  predicate AllThere(cfg: Config, f: Files, ps: seq<Bytes>) {
    forall i :: 0 <= i < |ps| ==> cfg.sha(ps[i]) in f.chunks
  }

  lemma ThereIsPresent(cfg: Config, f: Files, ps: seq<Bytes>)
    ensures AllThere(cfg, f, ps) <==> Present(f.chunks, Describe(cfg.sha, ps))
  {
    var cs := Describe(cfg.sha, ps);
    if Present(f.chunks, cs) {
      forall i | 0 <= i < |ps|
        ensures cfg.sha(ps[i]) in f.chunks
      {
        assert cs[i] in cs;
      }
    }
  }

  /** An upload completes exactly when every piece has its file; what it commits reads back as the bytes. */
  lemma CompleteExactly(cfg: Config, f: Files, bytes: Bytes, m: Manifest)
    requires cfg.Good() && FilesOk(cfg, f) && Uploading(cfg, f, bytes, m) && Holds(cfg.sha, f.chunks, Pieces(bytes, cfg.chunkSize))
    ensures var (f', r) := Complete(cfg, f, m.content.digest);
            && r == (if AllThere(cfg, f, Pieces(bytes, cfg.chunkSize)) then Ok(m) else Err(DurabilityUnavailable))
            && (r.Ok? ==> f'.chunks == f.chunks && f'.manifests == f.manifests[m.content.digest := m]
                          && ReadContent(cfg, f', m.content) == Ok(bytes))
  {
    hide ValidDigest, Pieces, Describe, Missing, Assemble, Join, AllThere, Holds, Sound, ReadContent;
    var ps, d := Pieces(bytes, cfg.chunkSize), m.content.digest;
    MissingPieces(cfg.sha, f.chunks, ps);
    ThereIsPresent(cfg, f, ps);
    if AllThere(cfg, f, ps) {
      AssemblePieces(cfg.sha, f.chunks, ps);
      JoinPieces(bytes, cfg.chunkSize);
      assert Complete(cfg, f, d).1 == Ok(m);
      CompleteKeeps(cfg, f, d);
      ReadExactly(cfg, Complete(cfg, f, d).0, m.content);
    }
  }

  // ----- Any order of writes -----

  /** Steps that neither remove content nor start or end the upload of this digest. */
  predicate Quiet(events: seq<StoreEvent>, digest: string) {
    forall e <- events :: !e.RemoveEvent? && (e.BeginEvent? ==> e.manifest.content.digest != digest) && (e.CompleteEvent? ==> e.digest != digest)
  }

  function Written(events: seq<StoreEvent>): set<Bytes> {
    set e <- events | e.WriteEvent? :: e.bytes
  }

  lemma QuietStep(cfg: Config, f: Files, e: StoreEvent, digest: string)
    requires Quiet([e], digest) && digest in f.uploads
    ensures var f' := StoreStep(cfg, f, e);
            && digest in f'.uploads && f'.uploads[digest] == f.uploads[digest]
            && f.chunks.Keys <= f'.chunks.Keys && f'.chunks.Values <= f.chunks.Values + (if e.WriteEvent? then {e.bytes} else {})
  {
    hide Matches, Missing, Validate, ValidDigest, Assemble;
    assert e in [e];
  }

  /** A well-formed write of a piece leaves its file behind. */
  lemma WriteLands(cfg: Config, f: Files, bytes: Bytes, m: Manifest, i: nat)
    requires cfg.Good() && Uploading(cfg, f, bytes, m) && i < |Pieces(bytes, cfg.chunkSize)|
    ensures var p := Pieces(bytes, cfg.chunkSize)[i];
            && cfg.sha(p) in WriteChunk(cfg, f, m.content.digest, i, p).0.chunks
            && (cfg.sha(p) !in f.chunks ==> WriteChunk(cfg, f, m.content.digest, i, p) == (f.(chunks := f.chunks[cfg.sha(p) := p]), Ok(true)))
            && (cfg.sha(p) in f.chunks && f.chunks[cfg.sha(p)] == p ==> WriteChunk(cfg, f, m.content.digest, i, p) == (f, Ok(false)))
  {
    hide ValidDigest, Pieces;
    var ps := Pieces(bytes, cfg.chunkSize);
    assert m.chunks[i] == Chunk(i, cfg.sha(ps[i]), |ps[i]|);
  }

  /** Every piece that was written has its file. */
  predicate Landed(sha: Bytes -> string, files: map<string, Bytes>, ps: seq<Bytes>, digest: string, events: seq<StoreEvent>) {
    forall i :: 0 <= i < |ps| && WriteEvent(digest, i, ps[i]) in events ==> sha(ps[i]) in files
  }

  lemma LandedNext(
    sha: Bytes -> string, before: map<string, Bytes>, after: map<string, Bytes>, ps: seq<Bytes>, digest: string, events: seq<StoreEvent>, e: StoreEvent)
    requires Landed(sha, before, ps, digest, events) && Landed(sha, after, ps, digest, [e]) && before.Keys <= after.Keys
    ensures Landed(sha, after, ps, digest, events + [e])
  {
    forall i | 0 <= i < |ps| && WriteEvent(digest, i, ps[i]) in events + [e]
      ensures sha(ps[i]) in after
    {
      var w := WriteEvent(digest, i, ps[i]);
      if w == e {
        assert w in [e];
      } else {
        assert w in events;
        assert sha(ps[i]) in before.Keys;
      }
    }
  }

  lemma StepLands(cfg: Config, f: Files, bytes: Bytes, m: Manifest, e: StoreEvent)
    requires cfg.Good() && Uploading(cfg, f, bytes, m)
    ensures Landed(cfg.sha, StoreStep(cfg, f, e).chunks, Pieces(bytes, cfg.chunkSize), m.content.digest, [e])
  {
    hide Pieces, Describe, ValidDigest, WriteChunk, Uploading;
    var ps, f' := Pieces(bytes, cfg.chunkSize), StoreStep(cfg, f, e);
    forall i | 0 <= i < |ps| && WriteEvent(m.content.digest, i, ps[i]) in [e]
      ensures cfg.sha(ps[i]) in f'.chunks
    {
      assert e == WriteEvent(m.content.digest, i, ps[i]);
      WriteLands(cfg, f, bytes, m, i);
    }
  }

  /** Which pieces have their file at the end: those there before, and those written in between. */
  lemma {:induction false} QuietRun(cfg: Config, f: Files, bytes: Bytes, m: Manifest, events: seq<StoreEvent>)
    requires cfg.Good() && Uploading(cfg, f, bytes, m) && Quiet(events, m.content.digest)
    ensures var f' := StoreRun(cfg, f, events);
            && Uploading(cfg, f', bytes, m) && f.chunks.Keys <= f'.chunks.Keys && f'.chunks.Values <= f.chunks.Values + Written(events)
            && Landed(cfg.sha, f'.chunks, Pieces(bytes, cfg.chunkSize), m.content.digest, events)
    decreases |events|
  {
    hide StoreStep, Pieces, Describe, ValidDigest, Landed;
    var ps, digest := Pieces(bytes, cfg.chunkSize), m.content.digest;
    if events == [] {
      LandedNone(cfg.sha, f.chunks, ps, digest);
    } else {
      var n := |events| - 1;
      var e, mid, f' := events[n], StoreRun(cfg, f, events[..n]), StoreRun(cfg, f, events);
      assert e in events && Quiet([e], digest) && Quiet(events[..n], digest);
      QuietRun(cfg, f, bytes, m, events[..n]);
      QuietStep(cfg, mid, e, digest);
      assert Written(events[..n]) <= Written(events);
      assert e.WriteEvent? ==> e.bytes in Written(events);
      StepLands(cfg, mid, bytes, m, e);
      LandedNext(cfg.sha, mid.chunks, f'.chunks, ps, digest, events[..n], e);
      assert events[..n] + [e] == events;
    }
  }

  lemma LandedNone(sha: Bytes -> string, files: map<string, Bytes>, ps: seq<Bytes>, digest: string)
    ensures Landed(sha, files, ps, digest, [])
  {
  }

  /**
   Chunks written in any order, repeated or interleaved with other uploads and wrong bytes,
   complete to the content that was announced.
   */
  lemma AnyOrderCompletes(cfg: Config, f: Files, bytes: Bytes, m: Manifest, events: seq<StoreEvent>)
    requires cfg.Good() && FilesOk(cfg, f) && Uploading(cfg, f, bytes, m) && Quiet(events, m.content.digest)
    requires Apart(cfg.sha, f.chunks.Values + Written(events) + AllOf(Pieces(bytes, cfg.chunkSize)))
    requires var ps := Pieces(bytes, cfg.chunkSize);
             forall i :: 0 <= i < |ps| ==> cfg.sha(ps[i]) in f.chunks || WriteEvent(m.content.digest, i, ps[i]) in events
    ensures var (f', r) := Complete(cfg, StoreRun(cfg, f, events), m.content.digest);
            r == Ok(m) && ReadContent(cfg, f', m.content) == Ok(bytes)
  {
    hide FilesOk, Complete, ReadContent, Pieces, Uploading, StoreRun, Holds;
    var ps, f1 := Pieces(bytes, cfg.chunkSize), StoreRun(cfg, f, events);
    QuietRun(cfg, f, bytes, m, events);
    EveryRunWhole(cfg, f, events);
    assert f1.chunks.Values + AllOf(ps) <= f.chunks.Values + Written(events) + AllOf(ps);
    ApartHolds(cfg, f1, ps);
    CompleteExactly(cfg, f1, bytes, m);
  }

  // ----- Puts -----

  /** The bytes in all chunk files together. */
  ghost function Weight(files: map<string, Bytes>): nat
    decreases |files|
  {
    if |files| == 0 then 0
    else
      var name :| name in files;
      assert |files - {name}| < |files| by { OneFewer(files, name); }
      |files[name]| + Weight(files - {name})
  }

  lemma OneFewer(files: map<string, Bytes>, name: string)
    requires name in files
    ensures |files - {name}| == |files| - 1
  {
    assert files.Keys == (files - {name}).Keys + {name};
  }

  lemma {:induction false} WeightWithout(files: map<string, Bytes>, name: string)
    requires name in files
    ensures Weight(files) == |files[name]| + Weight(files - {name})
    decreases |files|
  {
    hide Weight;
    var first := WeightFirst(files, name);
    if first != name {
      OneFewer(files, first);
      OneFewer(files, name);
      WeightWithout(files - {first}, name);
      assert files - {name} - {first} == files - {first} - {name};
      WeightWithout(files - {name}, first);
    }
  }

  lemma WeightFirst(files: map<string, Bytes>, name: string) returns (first: string)
    requires name in files
    ensures first in files && Weight(files) == |files[first]| + Weight(files - {first})
  {
    assert |files| > 0 by { OneFewer(files, name); }
    first :| first in files && Weight(files) == |files[first]| + Weight(files - {first});
  }

  lemma WeightAdded(files: map<string, Bytes>, name: string, bytes: Bytes)
    requires name !in files
    ensures Weight(files[name := bytes]) == Weight(files) + |bytes|
  {
    hide Weight;
    WeightWithout(files[name := bytes], name);
    assert files[name := bytes] - {name} == files;
  }

  /** A put in progress: the first `i` pieces, and all that were not missing, have their files. */
  predicate Putting(cfg: Config, f: Files, bytes: Bytes, m: Manifest, missing: seq<nat>, i: nat)
    requires cfg.chunkSize > 0
  {
    var ps := Pieces(bytes, cfg.chunkSize);
    && FilesOk(cfg, f) && Uploading(cfg, f, bytes, m) && i <= |ps| && Apart(cfg.sha, f.chunks.Values + AllOf(ps))
    && forall j :: 0 <= j < |ps| && (j < i || j !in missing) ==> cfg.sha(ps[j]) in f.chunks
  }

  /** What a stretch of writes adds: only pieces, counted by the statistics. */
  ghost predicate Added(f: Files, f': Files, ps: seq<Bytes>, before: Stats, after: Stats, count: nat) {
    && f'.manifests == f.manifests && f'.chunks.Values <= f.chunks.Values + AllOf(ps)
    && |f'.chunks| == |f.chunks| + (after.uploaded - before.uploaded)
    && Weight(f'.chunks) == Weight(f.chunks) + (after.bytes - before.bytes)
    && after.uploaded + after.reused == before.uploaded + before.reused + count
  }

  lemma AddedTwice(f: Files, f1: Files, f2: Files, ps: seq<Bytes>, s: Stats, s1: Stats, s2: Stats, a: nat, b: nat)
    requires Added(f, f1, ps, s, s1, a) && Added(f1, f2, ps, s1, s2, b)
    ensures Added(f, f2, ps, s, s2, a + b)
  {
    hide Weight;
  }

  /** One turn of the loop. */
  lemma PutOne(cfg: Config, f: Files, bytes: Bytes, m: Manifest, missing: seq<nat>, i: nat, stats: Stats)
    returns (f1: Files, next: Stats)
    requires cfg.Good() && Putting(cfg, f, bytes, m, missing, i) && i < |Pieces(bytes, cfg.chunkSize)|
    ensures var ps := Pieces(bytes, cfg.chunkSize);
            && Putting(cfg, f1, bytes, m, missing, i + 1) && Added(f, f1, ps, stats, next, 1)
            && PutPieces(cfg, f, m.content.digest, ps, missing, i, stats) == PutPieces(cfg, f1, m.content.digest, ps, missing, i + 1, next)
  {
    hide Pieces, WriteChunk, Putting, Added, ValidDigest;
    var ps, d := Pieces(bytes, cfg.chunkSize), m.content.digest;
    if i !in missing {
      f1, next := f, stats.(reused := stats.reused + 1);
      PutSkips(cfg, f, bytes, m, missing, i, stats);
    } else {
      var r := WriteChunk(cfg, f, d, i, ps[i]).1;
      f1 := WriteChunk(cfg, f, d, i, ps[i]).0;
      PutWrites(cfg, f, bytes, m, missing, i, stats);
      next := if r.value then Stats(stats.uploaded + 1, stats.reused, stats.bytes + |ps[i]|) else stats.(reused := stats.reused + 1);
    }
  }

  lemma PutSkips(cfg: Config, f: Files, bytes: Bytes, m: Manifest, missing: seq<nat>, i: nat, stats: Stats)
    requires cfg.Good() && Putting(cfg, f, bytes, m, missing, i) && i < |Pieces(bytes, cfg.chunkSize)| && i !in missing
    ensures Putting(cfg, f, bytes, m, missing, i + 1)
    ensures Added(f, f, Pieces(bytes, cfg.chunkSize), stats, stats.(reused := stats.reused + 1), 1)
  {
    hide FilesOk, Pieces, Uploading, Apart, ValidDigest, Weight;
  }

  lemma PutWrites(cfg: Config, f: Files, bytes: Bytes, m: Manifest, missing: seq<nat>, i: nat, stats: Stats)
    requires cfg.Good() && Putting(cfg, f, bytes, m, missing, i) && i < |Pieces(bytes, cfg.chunkSize)|
    ensures var ps := Pieces(bytes, cfg.chunkSize);
            var (f1, r) := WriteChunk(cfg, f, m.content.digest, i, ps[i]);
            && r.Ok? && Putting(cfg, f1, bytes, m, missing, i + 1)
            && Added(f, f1, ps, stats, if r.value then Stats(stats.uploaded + 1, stats.reused, stats.bytes + |ps[i]|)
                                       else stats.(reused := stats.reused + 1), 1)
  {
    hide FilesOk, Pieces, WriteChunk, Uploading, Apart, ValidDigest, AllOf, Weight;
    var ps := Pieces(bytes, cfg.chunkSize);
    var f1 := WriteChunk(cfg, f, m.content.digest, i, ps[i]).0;
    OneWrite(cfg, f, bytes, m, i);
    Nearer(cfg.sha, f.chunks, f1.chunks, ps, missing, i);
    ApartGrown(cfg.sha, f.chunks.Values, f1.chunks.Values, AllOf(ps));
  }

  lemma Nearer(sha: Bytes -> string, a: map<string, Bytes>, b: map<string, Bytes>, ps: seq<Bytes>, missing: seq<nat>, i: nat)
    requires i < |ps| && b.Keys == a.Keys + {sha(ps[i])}
    requires forall j :: 0 <= j < |ps| && (j < i || j !in missing) ==> sha(ps[j]) in a
    ensures forall j :: 0 <= j < |ps| && (j < i + 1 || j !in missing) ==> sha(ps[j]) in b
  {
  }

  lemma ApartGrown(sha: Bytes -> string, a: set<Bytes>, b: set<Bytes>, more: set<Bytes>)
    requires Apart(sha, a + more) && b <= a + more
    ensures Apart(sha, b + more)
  {
  }

  lemma PutNone(cfg: Config, f: Files, digest: string, ps: seq<Bytes>, missing: seq<nat>, stats: Stats)
    ensures PutPieces(cfg, f, digest, ps, missing, |ps|, stats) == (f, Ok(stats)) && Added(f, f, ps, stats, stats, 0)
  {
  }

  lemma {:induction false} PutAll(cfg: Config, f: Files, bytes: Bytes, m: Manifest, missing: seq<nat>, i: nat, stats: Stats)
    requires cfg.Good() && i <= |Pieces(bytes, cfg.chunkSize)| && Putting(cfg, f, bytes, m, missing, i)
    ensures var ps := Pieces(bytes, cfg.chunkSize);
            var (f', r) := PutPieces(cfg, f, m.content.digest, ps, missing, i, stats);
            r.Ok? && Putting(cfg, f', bytes, m, missing, |ps|) && Added(f, f', ps, stats, r.value, |ps| - i)
    decreases |Pieces(bytes, cfg.chunkSize)| - i
  {
    hide Putting, Added, PutPieces, Pieces, ValidDigest;
    var ps, d := Pieces(bytes, cfg.chunkSize), m.content.digest;
    if i == |ps| {
      PutNone(cfg, f, d, ps, missing, stats);
    } else {
      var f1, next := PutOne(cfg, f, bytes, m, missing, i, stats);
      PutAll(cfg, f1, bytes, m, missing, i + 1, next);
      var (f2, r) := PutPieces(cfg, f1, d, ps, missing, i + 1, next);
      AddedTwice(f, f1, f2, ps, stats, next, r.value, 1, |ps| - i - 1);
    }
  }

  /** The write of one piece during a put. */
  lemma OneWrite(cfg: Config, f: Files, bytes: Bytes, m: Manifest, i: nat)
    requires cfg.Good() && FilesOk(cfg, f) && Uploading(cfg, f, bytes, m) && i < |Pieces(bytes, cfg.chunkSize)|
    requires Apart(cfg.sha, f.chunks.Values + AllOf(Pieces(bytes, cfg.chunkSize)))
    ensures var ps := Pieces(bytes, cfg.chunkSize);
            var (f', r) := WriteChunk(cfg, f, m.content.digest, i, ps[i]);
            && r.Ok? && FilesOk(cfg, f') && Uploading(cfg, f', bytes, m) && f'.manifests == f.manifests
            && f'.chunks.Keys == f.chunks.Keys + {cfg.sha(ps[i])} && f'.chunks.Values <= f.chunks.Values + AllOf(ps)
            && |f'.chunks| == |f.chunks| + (if r.value then 1 else 0)
            && Weight(f'.chunks) == Weight(f.chunks) + if r.value then |ps[i]| else 0
  {
    hide FilesOk, Pieces, WriteChunk, Describe, Weight;
    var ps := Pieces(bytes, cfg.chunkSize);
    var f' := WriteChunk(cfg, f, m.content.digest, i, ps[i]).0;
    WriteKeeps(cfg, f, m.content.digest, i, ps[i]);
    ApartHolds(cfg, f, ps);
    WriteLands(cfg, f, bytes, m, i);
    if cfg.sha(ps[i]) !in f.chunks {
      WeightAdded(f.chunks, cfg.sha(ps[i]), ps[i]);
    }
    assert f'.chunks.Keys == f.chunks.Keys + {cfg.sha(ps[i])};
  }

  /**
   A put succeeds, stores each new chunk once, and reads back as the bytes exactly when no other
   format of the same bytes was committed before.
   */
  lemma PutThenRead(cfg: Config, f: Files, bytes: Bytes, format: string, policy: string)
    requires cfg.Good() && FilesOk(cfg, f) && |bytes| < U64_LIMIT && BuildManifest(cfg, bytes, format, policy).Ok?
    requires Apart(cfg.sha, f.chunks.Values + AllOf(Pieces(bytes, cfg.chunkSize)) + {bytes} + Contents(cfg, f))
    ensures var (f', r) := PutBytes(cfg, f, bytes, format, policy);
            var m, d := BuildManifest(cfg, bytes, format, policy).value, cfg.sha(bytes);
            && r.Ok? && r.value.0 == m && FilesOk(cfg, f')
            && r.value.1.uploaded + r.value.1.reused == |m.chunks| && |f'.chunks| == |f.chunks| + r.value.1.uploaded
            && Weight(f'.chunks) == Weight(f.chunks) + r.value.1.bytes
            && ReadContent(cfg, f', m.content) ==
               if d in f.manifests && f.manifests[d].content != m.content then Err(Corrupt) else Ok(bytes)
  {
    hide FilesOk, Pieces, Complete, ReadContent, PutPieces, Apart, Contents, Begin, ValidDigest, Weight;
    var m, d, ps := BuildManifest(cfg, bytes, format, policy).value, cfg.sha(bytes), Pieces(bytes, cfg.chunkSize);
    if d in f.manifests {
      ApartFewer(cfg.sha, f.chunks.Values + AllOf(ps) + {bytes} + Contents(cfg, f), {bytes} + Contents(cfg, f));
      PutAgain(cfg, f, bytes, m.content);
    } else {
      ApartFewer(cfg.sha, f.chunks.Values + AllOf(ps) + {bytes} + Contents(cfg, f), f.chunks.Values + AllOf(ps));
      BuiltValid(cfg, bytes, format, policy);
      PutBegins(cfg, f, bytes, m);
      var (f1, missing) := Begin(cfg, f, m);
      PutEnds(cfg, f1, bytes, m, missing.value);
    }
  }

  lemma PutBegins(cfg: Config, f: Files, bytes: Bytes, m: Manifest)
    requires cfg.Good() && FilesOk(cfg, f) && Validate(cfg, m).Ok? && m.content.digest == cfg.sha(bytes) && m.content.size == |bytes|
    requires m.chunks == Describe(cfg.sha, Pieces(bytes, cfg.chunkSize)) && m.content.digest !in f.manifests
    requires Apart(cfg.sha, f.chunks.Values + AllOf(Pieces(bytes, cfg.chunkSize)))
    ensures var (f1, r) := Begin(cfg, f, m);
            r.Ok? && Putting(cfg, f1, bytes, m, r.value, 0) && f1.chunks == f.chunks
  {
    hide FilesOk, Pieces, Apart, Holds, Missing, Validate, Describe, ValidDigest;
    var ps := Pieces(bytes, cfg.chunkSize);
    BeginKeeps(cfg, f, m);
    ApartHolds(cfg, f, ps);
    MissingPieces(cfg.sha, f.chunks, ps);
  }

  lemma PutEnds(cfg: Config, f: Files, bytes: Bytes, m: Manifest, missing: seq<nat>)
    requires cfg.Good() && Putting(cfg, f, bytes, m, missing, 0)
    ensures var ps := Pieces(bytes, cfg.chunkSize);
            var (f2, stats) := PutPieces(cfg, f, m.content.digest, ps, missing, 0, Stats(0, 0, 0));
            && stats.Ok? && stats.value.uploaded + stats.value.reused == |ps|
            && var (f3, r) := Complete(cfg, f2, m.content.digest);
            && r == Ok(m) && FilesOk(cfg, f3) && |f3.chunks| == |f.chunks| + stats.value.uploaded
            && Weight(f3.chunks) == Weight(f.chunks) + stats.value.bytes
            && ReadContent(cfg, f3, m.content) == Ok(bytes)
  {
    hide FilesOk, Pieces, Complete, ReadContent, PutPieces, Apart, AllThere, Holds, Uploading, ValidDigest, AllOf, Weight;
    var ps := Pieces(bytes, cfg.chunkSize);
    PutAll(cfg, f, bytes, m, missing, 0, Stats(0, 0, 0));
    var f2 := PutPieces(cfg, f, m.content.digest, ps, missing, 0, Stats(0, 0, 0)).0;
    ApartHolds(cfg, f2, ps);
    PutThere(cfg, f2, bytes, m, missing);
    CompleteExactly(cfg, f2, bytes, m);
    CompleteKeeps(cfg, f2, m.content.digest);
  }

  lemma PutThere(cfg: Config, f: Files, bytes: Bytes, m: Manifest, missing: seq<nat>)
    requires cfg.Good() && Putting(cfg, f, bytes, m, missing, |Pieces(bytes, cfg.chunkSize)|)
    ensures AllThere(cfg, f, Pieces(bytes, cfg.chunkSize))
  {
    hide FilesOk, Pieces, Uploading, Apart;
  }

  /** The contents that the store has committed. */
  ghost function Contents(cfg: Config, f: Files): set<Bytes> {
    set d <- f.manifests | Present(f.chunks, f.manifests[d].chunks) :: Assemble(f.chunks, f.manifests[d].chunks)
  }

  lemma PutAgain(cfg: Config, f: Files, bytes: Bytes, id: ContentId)
    requires FilesOk(cfg, f) && id.digest == cfg.sha(bytes) && id.digest in f.manifests
    requires Apart(cfg.sha, {bytes} + Contents(cfg, f))
    ensures ReadContent(cfg, f, id) == if f.manifests[id.digest].content != id then Err(Corrupt) else Ok(bytes)
  {
    hide ReadContent, Assemble, Pending;
    ReadExactly(cfg, f, id);
    var m := f.manifests[id.digest];
    assert Sound(cfg, f, id.digest, m);
    assert Assemble(f.chunks, m.chunks) in Contents(cfg, f);
  }

  /** One byte put under two formats: the second put succeeds and returns an id that cannot be read. */
  lemma TwoFormats(cfg: Config, first: string, second: string, policy: string)
    requires cfg.Good() && cfg.maxChunks > 0 && first != second
    ensures var (f, r) := PutBytes(cfg, NO_FILES, [7], first, policy);
            && r.Ok? && ReadContent(cfg, f, r.value.0.content) == Ok([7])
            && var (f', r') := PutBytes(cfg, f, [7], second, policy);
            && r'.Ok? && f' == f && ReadContent(cfg, f', r'.value.0.content) == Err(Corrupt)
  {
    hide FilesOk, PutPieces, Complete, ReadContent, Begin, ValidDigest;
    var bytes: Bytes := [7];
    assert Pieces(bytes, cfg.chunkSize) == [bytes];
    EmptyStore(cfg);
    PutThenRead(cfg, NO_FILES, bytes, first, policy);
    var (f, r) := PutBytes(cfg, NO_FILES, bytes, first, policy);
    ReadExactly(cfg, f, r.value.0.content);
    ReadExactly(cfg, f, BuildManifest(cfg, bytes, second, policy).value.content);
  }

  lemma EmptyStore(cfg: Config)
    ensures FilesOk(cfg, NO_FILES)
    ensures Apart(cfg.sha, NO_FILES.chunks.Values + AllOf([[7]]) + {[7]} + Contents(cfg, NO_FILES))
  {
  }
}
