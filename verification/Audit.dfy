/** The audit log: its hash chain, its file of lines and its segments. */
module Audit {
  import opened Wire
  import opened Hashing
  import opened Outcomes
  import opened Tasks
  import Merkle

  datatype AuditKind =
    | Membership | Permission | Assignment | Lease | ResultCommit | Verification | Revocation | ManualDecision | ResourceAccess

  datatype AuditEvent = AuditEvent(
    sequence: u64, tick: u64, kind: AuditKind, task: Option<TaskId>, attempt: Option<u32>, node: Option<NodeId>,
    metadata: map<string, string>, previous: string, hash: string)

  const NEWLINE: byte := 10
  const RETURN: byte := 13

  predicate Blank(line: Bytes) {
    forall i :: 0 <= i < |line| ==> line[i] in {9, 10, 11, 12, 13, 32}
  }

  function Concat(qs: seq<Bytes>): Bytes {
    if qs == [] then [] else Concat(qs[..|qs| - 1]) + qs[|qs| - 1]
  }

  /** The hexadecimal SHA-256 and the JSON encoding, as arbitrary functions; `genesis` is a fixed text. */
  datatype AuditCodec = AuditCodec(sha: Bytes -> string, json: AuditEvent -> Bytes, parse: Bytes -> Option<AuditEvent>, genesis: Bytes) {
    /** A nonempty beginning of a printed event. */
    ghost predicate Fragment(q: Bytes) {
      q != [] && exists e :: q <= json(e)
    }

    /** Beginnings of printed events run together, other than one whole event. */
    ghost predicate Ragged(qs: seq<Bytes>) {
      && (forall q <- qs :: Fragment(q))
      && (|qs| >= 2 || (|qs| == 1 && exists e :: qs[0] < json(e)))
    }

    /**
     A printed event is one nonblank line that parses back; the genesis text is no event.  Printed
     events are objects that all start with the same key, so beginnings of them run together are
     never one.
     */
    ghost predicate Faithful() {
      && (forall e :: parse(json(e)) == Some(e) && NEWLINE !in json(e) && !Blank(json(e)) && json(e)[|json(e)| - 1] != RETURN)
      && (forall qs :: Ragged(qs) ==> parse(Concat(qs)).None? && !Blank(Concat(qs)))
      && parse(genesis).None?
    }
  }

  datatype AuditBudget = AuditBudget(perSegment: nat, metadataEntries: nat, bytesPerTick: u64) {
    /** `bounded_event_capacity`. */
    function Capacity(): nat { if 64 * perSegment < U64_LIMIT then 64 * perSegment else U64_LIMIT - 1 }

    predicate Positive() { perSegment > 0 && metadataEntries > 0 && bytesPerTick > 0 }
  }

  type Events = seq<AuditEvent>

  // ----- The chain -----

  function EventText(codec: AuditCodec, e: AuditEvent): Bytes {
    codec.json(e.(hash := ""))
  }

  function NextSequence(log: Events): u64 {
    if log == [] then 1 else SatAdd(log[|log| - 1].sequence, 1)
  }

  function Head(codec: AuditCodec, log: Events): string {
    if log == [] then codec.sha(codec.genesis) else log[|log| - 1].hash
  }

  predicate ValidNext(codec: AuditCodec, log: Events, e: AuditEvent) {
    e.sequence == NextSequence(log) && e.previous == Head(codec, log) && e.hash == codec.sha(EventText(codec, e))
  }

  predicate ValidChain(codec: AuditCodec, log: Events) {
    log == [] || (ValidChain(codec, log[..|log| - 1]) && ValidNext(codec, log[..|log| - 1], log[|log| - 1]))
  }

  // ----- The file -----

  function Line(codec: AuditCodec, e: AuditEvent): Bytes {
    codec.json(e) + [NEWLINE]
  }

  function FileOf(codec: AuditCodec, log: Events): Bytes {
    if log == [] then [] else FileOf(codec, log[..|log| - 1]) + Line(codec, log[|log| - 1])
  }

  function LineEnd(b: Bytes): (n: nat)
    ensures n <= |b| && NEWLINE !in b[..n] && (n < |b| ==> b[n] == NEWLINE)
  {
    if b == [] || b[0] == NEWLINE then 0
    else
      var n := LineEnd(b[1..]);
      assert b[..n + 1] == [b[0]] + b[1..][..n];
      n + 1
  }

  /** A line without the carriage return that a newline may follow. */
  function Stripped(b: Bytes, ended: bool): Bytes {
    if ended && b != [] && b[|b| - 1] == RETURN then b[..|b| - 1] else b
  }

  function TakeLine(codec: AuditCodec, log: Events, line: Bytes): Result<Events> {
    if Blank(line) then Ok(log)
    else
      match codec.parse(line)
      case None => Err(Corrupt)
      case Some(e) => if ValidNext(codec, log, e) then Ok(log + [e]) else Err(Corrupt)
  }

  /** The loop of `open` from a given point of the file. */
  function OpenFrom(codec: AuditCodec, rest: Bytes, log: Events): Result<Events>
    decreases |rest|
  {
    if rest == [] then Ok(log)
    else
      var n := LineEnd(rest);
      var next := TakeLine(codec, log, Stripped(rest[..n], n < |rest|));
      if next.Err? || n == |rest| then next else OpenFrom(codec, rest[n + 1..], next.value)
  }

  function OpenAudit(codec: AuditCodec, budget: AuditBudget, file: Bytes): Result<Events> {
    if !budget.Positive() then Err(InvalidConfig)
    else
      match OpenFrom(codec, file, [])
      case Err(e) => Err(e)
      case Ok(log) => if |log| > budget.Capacity() then Err(CapacityExceeded) else Ok(log)
  }

  // ----- Appending -----

  const FORBIDDEN := ["secret", "token", "password", "credential", "input", "output"]

  function Lower(s: string): string {
    seq(|s|, i requires 0 <= i < |s| => if 'A' <= s[i] <= 'Z' then (s[i] as int + 32) as char else s[i])
  }

  predicate Sensitive(key: string) {
    exists word <- FORBIDDEN :: Lower(key) == word || (|Lower(key)| > |word| && Lower(key)[|Lower(key)| - |word| - 1..] == "_" + word)
  }

  predicate MetadataOk(m: map<string, string>, limit: nat) {
    |m| <= limit && forall key <- m :: |key| <= 64 && |m[key]| <= 256 && !Sensitive(key)
  }

  datatype Entry = Entry(tick: u64, kind: AuditKind, task: Option<TaskId>, attempt: Option<u32>, node: Option<NodeId>, metadata: map<string, string>)

  function NewEvent(codec: AuditCodec, log: Events, x: Entry): AuditEvent {
    var e := AuditEvent(NextSequence(log), x.tick, x.kind, x.task, x.attempt, x.node, x.metadata, Head(codec, log), "");
    e.(hash := codec.sha(EventText(codec, e)))
  }

  /** The bytes written in this tick, saturating. */
  function Spend(spent: u64, n: nat): u64 {
    if spent + n < U64_LIMIT then spent + n else U64_LIMIT - 1
  }

  /** `landed` is how much of a failed write reached the file all the same. */
  datatype WriteOutcome = Written | WriteFails(landed: nat)

  datatype AuditState = AuditState(file: Bytes, log: Events, spent: u64)

  function AppendEvent(codec: AuditCodec, budget: AuditBudget, s: AuditState, x: Entry, outcome: WriteOutcome): (AuditState, Result<AuditEvent>) {
    var e := NewEvent(codec, s.log, x);
    var line := Line(codec, e);
    if !MetadataOk(x.metadata, budget.metadataEntries) then (s, Err(WorkerRejected))
    else if |s.log| >= budget.Capacity() then (s, Err(CapacityExceeded))
    else if Spend(s.spent, |line|) > budget.bytesPerTick then (s, Err(CapacityExceeded))
    else
      match outcome
      case WriteFails(landed) => (s.(file := s.file + if landed < |line| then line[..landed] else line), Err(Storage))
      case Written => (AuditState(s.file + line, s.log + [e], Spend(s.spent, |line|)), Ok(e))
  }

  // ----- The object -----

  class PersistentAuditLog {
    const codec: AuditCodec
    const budget: AuditBudget
    var file: Bytes
    var events: Events
    var spent: u64

    function View(): AuditState
      reads this
    {
      AuditState(file, events, spent)
    }

    constructor (codec: AuditCodec, budget: AuditBudget, file: Bytes, events: Events)
      ensures this.codec == codec && this.budget == budget && View() == AuditState(file, events, 0)
    {
      this.codec, this.budget, this.file, this.events, this.spent := codec, budget, file, events, 0;
    }

    method Append(x: Entry, outcome: WriteOutcome) returns (r: Result<AuditEvent>)
      modifies this`file, this`events, this`spent
      ensures (View(), r) == AppendEvent(codec, budget, old(View()), x, outcome)
    {
      if !MetadataOk(x.metadata, budget.metadataEntries) {
        return Err(WorkerRejected);
      }
      if |events| >= budget.Capacity() {
        return Err(CapacityExceeded);
      }
      var e := AuditEvent(NextSequence(events), x.tick, x.kind, x.task, x.attempt, x.node, x.metadata, Head(codec, events), "");
      e := e.(hash := codec.sha(EventText(codec, e)));
      var line := Line(codec, e);
      if Spend(spent, |line|) > budget.bytesPerTick {
        return Err(CapacityExceeded);
      }
      match outcome {
        case WriteFails(landed) =>
          file := file + if landed < |line| then line[..landed] else line;
          return Err(Storage);
        case Written =>
          file := file + line;
      }
      spent := Spend(spent, |line|);
      events := events + [e];
      return Ok(e);
    }

    method NextTick()
      modifies this`spent
      ensures spent == 0
    {
      spent := 0;
    }
  }

  /** The loop of `open`. */
  method OpenLog(codec: AuditCodec, budget: AuditBudget, file: Bytes) returns (r: Result<PersistentAuditLog>)
    ensures r.Err? ==> OpenAudit(codec, budget, file) == Err(r.error)
    ensures r.Ok? ==> fresh(r.value) && OpenAudit(codec, budget, file) == Ok(r.value.events)
    ensures r.Ok? ==> r.value.codec == codec && r.value.budget == budget && r.value.file == file && r.value.spent == 0
  {
    hide ValidNext, Blank;
    if !budget.Positive() {
      return Err(InvalidConfig);
    }
    var rest, events: Events := file, [];
    while rest != []
      invariant OpenFrom(codec, rest, events) == OpenFrom(codec, file, [])
      decreases |rest|
    {
      var n := LineEnd(rest);
      var line := Stripped(rest[..n], n < |rest|);
      if !Blank(line) {
        match codec.parse(line) {
          case None => return Err(Corrupt);
          case Some(e) =>
            if !ValidNext(codec, events, e) {
              return Err(Corrupt);
            }
            events := events + [e];
        }
      }
      rest := if n < |rest| then rest[n + 1..] else [];
    }
    if |events| > budget.Capacity() {
      return Err(CapacityExceeded);
    }
    var audit := new PersistentAuditLog(codec, budget, file, events);
    return Ok(audit);
  }

  // ----- What was appended is what opens -----

  lemma LineEndAt(a: Bytes, b: Bytes)
    requires NEWLINE !in a
    ensures LineEnd(a + [NEWLINE] + b) == |a|
  {
    var s := a + [NEWLINE] + b;
    var n := LineEnd(s);
    forall i | 0 <= i < n
      ensures s[i] != NEWLINE
    {
      assert s[..n][i] == s[i];
    }
    assert s[|a|] == NEWLINE && forall i :: 0 <= i < |a| ==> s[i] == a[i];
  }

  /** A line that is ended is taken before the rest is read. */
  lemma OpenEnded(codec: AuditCodec, text: Bytes, rest: Bytes, log: Events)
    requires NEWLINE !in text && text != [] && text[|text| - 1] != RETURN
    ensures OpenFrom(codec, text + [NEWLINE] + rest, log) ==
            if TakeLine(codec, log, text).Err? then TakeLine(codec, log, text)
            else OpenFrom(codec, rest, TakeLine(codec, log, text).value)
  {
    hide TakeLine, LineEnd;
    var bytes := text + [NEWLINE] + rest;
    LineEndAt(text, rest);
    assert bytes[..|text|] == text && bytes[|text| + 1..] == rest;
  }

  lemma LineEndLast(text: Bytes)
    requires NEWLINE !in text
    ensures LineEnd(text) == |text|
  {
  }

  /** A line at the end of the file is taken without its newline. */
  lemma OpenTail(codec: AuditCodec, text: Bytes, log: Events)
    requires NEWLINE !in text && text != []
    ensures OpenFrom(codec, text, log) == TakeLine(codec, log, text)
  {
    hide TakeLine, LineEnd;
    LineEndLast(text);
    assert text[..|text|] == text;
  }

  lemma OpenLine(codec: AuditCodec, e: AuditEvent, rest: Bytes, log: Events)
    requires codec.Faithful()
    ensures OpenFrom(codec, Line(codec, e) + rest, log) ==
            if ValidNext(codec, log, e) then OpenFrom(codec, rest, log + [e]) else Err(Corrupt)
  {
    hide ValidNext, OpenFrom;
    var text := codec.json(e);
    assert Line(codec, e) + rest == text + [NEWLINE] + rest;
    OpenEnded(codec, text, rest, log);
  }

  lemma {:induction false} OpenValid(codec: AuditCodec, log: Events, rest: Bytes)
    requires codec.Faithful() && ValidChain(codec, log)
    ensures OpenFrom(codec, FileOf(codec, log) + rest, []) == OpenFrom(codec, rest, log)
    decreases |log|
  {
    hide ValidNext, OpenFrom, Line;
    if log == [] {
      assert FileOf(codec, log) + rest == rest;
    } else {
      var n := |log| - 1;
      var line := Line(codec, log[n]);
      assert FileOf(codec, log) + rest == FileOf(codec, log[..n]) + (line + rest);
      OpenValid(codec, log[..n], line + rest);
      OpenLine(codec, log[n], rest, log[..n]);
      assert log[..n] + [log[n]] == log;
    }
  }

  /** The file and the memory agree: the chain is valid and the file is its lines. */
  predicate Agrees(codec: AuditCodec, budget: AuditBudget, s: AuditState) {
    ValidChain(codec, s.log) && s.file == FileOf(codec, s.log) && |s.log| <= budget.Capacity()
  }

  lemma ReopensSame(codec: AuditCodec, budget: AuditBudget, s: AuditState)
    requires codec.Faithful() && budget.Positive() && Agrees(codec, budget, s)
    ensures OpenAudit(codec, budget, s.file) == Ok(s.log)
  {
    OpenValid(codec, s.log, []);
    assert s.file + [] == s.file;
  }

  lemma NewIsNext(codec: AuditCodec, log: Events, x: Entry)
    ensures ValidNext(codec, log, NewEvent(codec, log, x))
  {
    var e := NewEvent(codec, log, x);
    assert e.(hash := "") == AuditEvent(NextSequence(log), x.tick, x.kind, x.task, x.attempt, x.node, x.metadata, Head(codec, log), "");
  }

  // ----- The head commits to the whole log -----

  function Texts(codec: AuditCodec, log: Events): set<Bytes> {
    set e <- log :: EventText(codec, e)
  }

  lemma Told(sha: Bytes -> string, all: set<Bytes>, x: Bytes, y: Bytes)
    requires Apart(sha, all) && x in all && y in all && sha(x) == sha(y)
    ensures x == y
  {
  }

  lemma SameText(codec: AuditCodec, a: AuditEvent, b: AuditEvent)
    requires codec.Faithful() && EventText(codec, a) == EventText(codec, b) && a.hash == b.hash
    ensures a == b
  {
    assert codec.parse(EventText(codec, a)) == Some(a.(hash := "")) && codec.parse(EventText(codec, b)) == Some(b.(hash := ""));
  }

  /** Two valid logs with the same head are the same log, unless the hash collides on one of their texts. */
  lemma {:induction false} SameHeadSameLog(codec: AuditCodec, a: Events, b: Events)
    requires codec.Faithful() && ValidChain(codec, a) && ValidChain(codec, b) && Head(codec, a) == Head(codec, b)
    requires Apart(codec.sha, Texts(codec, a) + Texts(codec, b) + {codec.genesis})
    ensures a == b
    decreases |a|
  {
    hide EventText, Apart;
    var all := Texts(codec, a) + Texts(codec, b) + {codec.genesis};
    if a != [] && b != [] {
      var n, k := |a| - 1, |b| - 1;
      var x, y := a[n], b[k];
      assert EventText(codec, x) in Texts(codec, a) && EventText(codec, y) in Texts(codec, b);
      Told(codec.sha, all, EventText(codec, x), EventText(codec, y));
      SameText(codec, x, y);
      assert Texts(codec, a[..n]) <= Texts(codec, a) && Texts(codec, b[..k]) <= Texts(codec, b);
      ApartFewer(codec.sha, all, Texts(codec, a[..n]) + Texts(codec, b[..k]) + {codec.genesis});
      SameHeadSameLog(codec, a[..n], b[..k]);
      assert a == a[..n] + [x] && b == b[..k] + [y];
    } else if a != [] {
      NotGenesis(codec, a, all);
    } else if b != [] {
      NotGenesis(codec, b, all);
    }
  }

  lemma NotGenesis(codec: AuditCodec, log: Events, all: set<Bytes>)
    requires codec.Faithful() && ValidChain(codec, log) && log != [] && Apart(codec.sha, all)
    requires Texts(codec, log) <= all && codec.genesis in all
    ensures Head(codec, log) != codec.sha(codec.genesis)
  {
    var e := log[|log| - 1];
    assert EventText(codec, e) in Texts(codec, log);
    assert codec.parse(EventText(codec, e)).Some?;
  }

  // ----- Segments -----

  datatype Segment = Segment(id: u64, first: u64, last: u64, previousRoot: Option<string>, root: string, leaves: seq<string>)

  function Since(log: Events, start: u64): Events {
    if log == [] then []
    else
      var e := log[|log| - 1];
      Since(log[..|log| - 1], start) + if e.sequence >= start then [e] else []
  }

  function Hashes(log: Events): seq<string> {
    seq(|log|, i requires 0 <= i < |log| => log[i].hash)
  }

  function BuildSegment(pair: Merkle.Pair, budget: AuditBudget, log: Events, id: u64, start: u64, previousRoot: Option<string>): Result<Segment> {
    var found := Since(log, start);
    var taken := if |found| <= budget.perSegment then found else found[..budget.perSegment];
    if taken == [] then Err(TaskUnknown)
    else Ok(Segment(id, taken[0].sequence, taken[|taken| - 1].sequence, previousRoot, Merkle.Root(pair, Hashes(taken)), Hashes(taken)))
  }

  predicate Consistent(previous: Segment, current: Segment) {
    && current.id == SatAdd(previous.id, 1) && current.first == SatAdd(previous.last, 1)
    && current.previousRoot == Some(previous.root)
  }

  lemma {:induction false} Sequences(codec: AuditCodec, log: Events, i: nat)
    requires ValidChain(codec, log) && |log| < U64_LIMIT && i < |log|
    ensures log[i].sequence == i + 1
    decreases |log|
  {
    var n := |log| - 1;
    if i < n {
      Sequences(codec, log[..n], i);
    } else if n > 0 {
      Sequences(codec, log[..n], n - 1);
    }
  }

  predicate Numbered(log: Events) {
    forall i :: 0 <= i < |log| ==> log[i].sequence == i + 1
  }

  lemma ChainNumbered(codec: AuditCodec, log: Events)
    requires ValidChain(codec, log) && |log| < U64_LIMIT
    ensures Numbered(log)
  {
    forall i | 0 <= i < |log|
      ensures log[i].sequence == i + 1
    {
      Sequences(codec, log, i);
    }
  }

  lemma {:induction false} SinceIs(log: Events, start: nat)
    requires Numbered(log) && 1 <= start <= |log| + 1 && |log| + 1 < U64_LIMIT
    ensures Since(log, start) == log[start - 1..]
    decreases |log|
  {
    if log != [] {
      var n := |log| - 1;
      if start == n + 2 {
        SinceNone(log, start);
      } else {
        SinceIs(log[..n], start);
        assert log[..n][start - 1..] + [log[n]] == log[start - 1..];
      }
    }
  }

  lemma {:induction false} SinceNone(log: Events, start: u64)
    requires Numbered(log) && |log| < start
    ensures Since(log, start) == []
    decreases |log|
  {
    if log != [] {
      SinceNone(log[..|log| - 1], start);
    }
  }

  /** The events that the segment at `start` covers. */
  function Stretch(budget: AuditBudget, log: Events, start: nat): Events
    requires 1 <= start <= |log|
  {
    log[start - 1..if start - 1 + budget.perSegment <= |log| then start - 1 + budget.perSegment else |log|]
  }

  lemma SegmentIs(pair: Merkle.Pair, budget: AuditBudget, log: Events, id: u64, start: nat, previousRoot: Option<string>)
    requires Numbered(log) && 1 <= start <= |log| && |log| + 1 < U64_LIMIT && budget.Positive()
    ensures var part := Stretch(budget, log, start);
            part != [] && BuildSegment(pair, budget, log, id, start, previousRoot) ==
            Ok(Segment(id, start, start - 1 + |part|, previousRoot, Merkle.Root(pair, Hashes(part)), Hashes(part)))
  {
    hide Since, Hashes, Merkle.Root;
    SinceIs(log, start);
    var part := Stretch(budget, log, start);
    var found := log[start - 1..];
    assert part == if |found| <= budget.perSegment then found else found[..budget.perSegment];
    assert part[0] == log[start - 1] && part[|part| - 1] == log[start - 2 + |part|];
  }

  /** Segments built one after the other, each at the end of the last and with its root. */
  function Segments(pair: Merkle.Pair, budget: AuditBudget, log: Events, id: u64, start: nat, previousRoot: Option<string>): seq<Segment>
    requires 1 <= start
    decreases |log| + 1 - start
  {
    if start > |log| || start >= U64_LIMIT then []
    else
      match BuildSegment(pair, budget, log, id, start, previousRoot)
      case Err(_) => []
      case Ok(s) => if s.last < start then [] else [s] + Segments(pair, budget, log, SatAdd(id, 1), s.last + 1, Some(s.root))
  }

  function Leaves(segments: seq<Segment>): seq<string> {
    if segments == [] then [] else segments[0].leaves + Leaves(segments[1..])
  }

  predicate Linked(ss: seq<Segment>) {
    forall i :: 0 <= i < |ss| - 1 ==> Consistent(ss[i], ss[i + 1])
  }

  predicate Rooted(pair: Merkle.Pair, budget: AuditBudget, ss: seq<Segment>) {
    forall s <- ss :: 0 < |s.leaves| <= budget.perSegment && s.root == Merkle.Root(pair, s.leaves)
  }

  lemma LinkedCons(s: Segment, rest: seq<Segment>)
    requires Linked(rest) && (rest != [] ==> Consistent(s, rest[0]))
    ensures Linked([s] + rest)
  {
    hide Consistent;
    var ss := [s] + rest;
    forall i | 0 <= i < |ss| - 1
      ensures Consistent(ss[i], ss[i + 1])
    {
      assert ss[i + 1] == rest[i] && (i > 0 ==> ss[i] == rest[i - 1]);
    }
  }

  /** Consecutive segments are consistent with each other and divide the log's events among them. */
  lemma {:induction false} SegmentsPartition(pair: Merkle.Pair, budget: AuditBudget, log: Events, id: u64, start: nat, previousRoot: Option<string>)
    requires Numbered(log) && 1 <= start <= |log| + 1 && |log| + 1 < U64_LIMIT && budget.Positive()
    ensures var ss := Segments(pair, budget, log, id, start, previousRoot);
            && Leaves(ss) == Hashes(log[start - 1..]) && Linked(ss) && Rooted(pair, budget, ss)
            && (ss != [] ==> ss[0].id == id && ss[0].first == start && ss[0].previousRoot == previousRoot)
    decreases |log| + 1 - start
  {
    hide BuildSegment, Merkle.Root, Since, Linked, Rooted, Hashes, Numbered;
    if start > |log| {
      assert log[start - 1..] == [];
      NoSegments(pair, budget);
    } else {
      SegmentIs(pair, budget, log, id, start, previousRoot);
      var part := Stretch(budget, log, start);
      var s := BuildSegment(pair, budget, log, id, start, previousRoot).value;
      var rest := Segments(pair, budget, log, SatAdd(id, 1), s.last + 1, Some(s.root));
      SegmentsPartition(pair, budget, log, SatAdd(id, 1), s.last + 1, Some(s.root));
      assert ([s] + rest)[1..] == rest;
      assert part + log[s.last..] == log[start - 1..];
      HashesAppend(part, log[s.last..]);
      LinkedCons(s, rest);
      RootedCons(pair, budget, part, s, rest);
    }
  }

  lemma NoSegments(pair: Merkle.Pair, budget: AuditBudget)
    ensures Linked([]) && Rooted(pair, budget, []) && Hashes([]) == []
  {
  }

  lemma RootedCons(pair: Merkle.Pair, budget: AuditBudget, part: Events, s: Segment, rest: seq<Segment>)
    requires Rooted(pair, budget, rest) && 0 < |part| <= budget.perSegment
    requires s.leaves == Hashes(part) && s.root == Merkle.Root(pair, Hashes(part))
    ensures Rooted(pair, budget, [s] + rest)
  {
    hide Merkle.Root;
  }

  lemma HashesAppend(a: Events, b: Events)
    ensures Hashes(a + b) == Hashes(a) + Hashes(b)
  {
  }

  /** The segments of a valid log, from the first on, divide all of its events among them. */
  lemma LogPartition(codec: AuditCodec, pair: Merkle.Pair, budget: AuditBudget, log: Events)
    requires ValidChain(codec, log) && |log| + 1 < U64_LIMIT && budget.Positive()
    ensures var ss := Segments(pair, budget, log, 1, 1, None);
            Leaves(ss) == Hashes(log) && Linked(ss) && Rooted(pair, budget, ss)
  {
    hide Segments, Linked, Rooted, Hashes;
    ChainNumbered(codec, log);
    SegmentsPartition(pair, budget, log, 1, 1, None);
    assert log[0..] == log;
  }

  /** Every event of a segment has an inclusion proof that verifies against the segment's root. */
  lemma SegmentProves(pair: Merkle.Pair, s: Segment, i: u32)
    requires s.leaves != [] && s.root == Merkle.Root(pair, s.leaves) && i < |s.leaves|
    ensures Merkle.Verify(pair, Merkle.InclusionProof(s.id, i, s.leaves[i], Merkle.Siblings(pair, s.leaves, i), s.root))
  {
    Merkle.GeneratedVerifies(pair, s.leaves, i);
  }
}
