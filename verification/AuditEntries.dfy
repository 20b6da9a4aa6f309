/** What the audit log records: the entries given to it, nothing sensitive, and no more bytes a tick than budgeted. */
module AuditEntries {
  import opened Wire
  import opened Outcomes
  import opened Tasks
  import opened Audit
  import opened AuditRuns
  import Merkle

  /** What an event says, apart from its place in the chain. */
  function EntryOf(e: AuditEvent): Entry {
    Entry(e.tick, e.kind, e.task, e.attempt, e.node, e.metadata)
  }

  function EntriesOf(log: Events): seq<Entry> {
    if log == [] then [] else EntriesOf(log[..|log| - 1]) + [EntryOf(log[|log| - 1])]
  }

  /** The text is the word, or ends in it after an underscore. */
  ghost predicate Names(text: string, word: string) {
    text == word || exists start :: text == start + "_" + word
  }

  const WORDS := ["secret", "token", "password", "credential", "input", "output"]

  /** Metadata that may be logged: few and short, under keys that in lower case name nothing sensitive. */
  ghost predicate Loggable(m: map<string, string>, limit: nat) {
    && |m| <= limit && (forall key <- m :: |key| <= 64 && |m[key]| <= 256)
    && forall key <- m, word <- WORDS :: !Names(Lower(key), word)
  }

  lemma EndsWith(text: string, word: string)
    ensures (exists start :: text == start + "_" + word) <==> |text| > |word| && text[|text| - |word| - 1..] == "_" + word
  {
    if |text| > |word| && text[|text| - |word| - 1..] == "_" + word {
      var start := text[..|text| - |word| - 1];
      assert text == start + text[|start|..];
      assert text == start + "_" + word;
    }
    if exists start :: text == start + "_" + word {
      var start :| text == start + "_" + word;
      assert text[|text| - |word| - 1..] == "_" + word;
    }
  }

  lemma SensitiveExactly(key: string)
    ensures Sensitive(key) <==> exists word <- WORDS :: Names(Lower(key), word)
  {
    hide Lower;
    assert FORBIDDEN == WORDS;
    forall word: string
      ensures Names(Lower(key), word) <==>
              Lower(key) == word || (|Lower(key)| > |word| && Lower(key)[|Lower(key)| - |word| - 1..] == "_" + word)
    {
      EndsWith(Lower(key), word);
    }
  }

  /** Metadata passes the log's check exactly when it is loggable. */
  lemma ChecksExactly(m: map<string, string>, limit: nat)
    ensures MetadataOk(m, limit) <==> Loggable(m, limit)
  {
    hide Lower, Sensitive, Names;
    forall key | key in m
      ensures Sensitive(key) <==> exists word <- WORDS :: Names(Lower(key), word)
    {
      SensitiveExactly(key);
    }
  }

  /** An append succeeds exactly when the metadata is loggable, the log has room, the line fits the tick and the write lands; the event then says what was given. */
  lemma AppendsExactly(codec: AuditCodec, budget: AuditBudget, s: AuditState, x: Entry, outcome: WriteOutcome)
    ensures var (s', r) := AppendEvent(codec, budget, s, x, outcome);
            var size := |codec.json(NewEvent(codec, s.log, x))| + 1;
            var fits := if s.spent + size < U64_LIMIT then s.spent + size <= budget.bytesPerTick else budget.bytesPerTick == U64_LIMIT - 1;
            var room := |s.log| < 64 * budget.perSegment && |s.log| < U64_LIMIT - 1;
            && (r.Ok? <==> Loggable(x.metadata, budget.metadataEntries) && room && fits && outcome.Written?)
            && (r.Ok? ==> EntryOf(r.value) == x && s'.log == s.log + [r.value] && |s'.file| == |s.file| + size)
            && (r.Err? ==> s'.log == s.log && s'.spent == s.spent)
            && (r == Err(WorkerRejected) <==> !Loggable(x.metadata, budget.metadataEntries))
  {
    hide MetadataOk, Loggable, EventText;
    ChecksExactly(x.metadata, budget.metadataEntries);
  }

  /** Equal but for the case of ASCII letters. */
  predicate SameLetters(a: string, b: string) {
    |a| == |b| && forall i :: 0 <= i < |a| ==>
      a[i] == b[i] || ('A' <= a[i] <= 'Z' && b[i] as int == a[i] as int + 32) || ('A' <= b[i] <= 'Z' && a[i] as int == b[i] as int + 32)
  }

  /** The case of a key does not hide it. */
  lemma CaseIgnored(a: string, b: string)
    requires SameLetters(a, b)
    ensures Sensitive(a) <==> Sensitive(b)
  {
    hide Lower, SameLetters, Sensitive, Names;
    SameLower(a, b);
    SensitiveExactly(a);
    SensitiveExactly(b);
  }

  lemma SameLower(a: string, b: string)
    requires SameLetters(a, b)
    ensures Lower(a) == Lower(b)
  {
    var x, y := Lower(a), Lower(b);
    forall i | 0 <= i < |a|
      ensures x[i] == y[i]
    {
      assert a[i] == b[i] || ('A' <= a[i] <= 'Z' && b[i] as int == a[i] as int + 32) || ('A' <= b[i] <= 'Z' && a[i] as int == b[i] as int + 32);
    }
  }

  // ----- Reading files that others have touched -----

  /** A budget of zero in any respect is refused before the file is read. */
  lemma ZeroBudgetRefused(codec: AuditCodec, budget: AuditBudget, file: Bytes)
    ensures budget.perSegment == 0 || budget.metadataEntries == 0 || budget.bytesPerTick == 0 ==> OpenAudit(codec, budget, file) == Err(InvalidConfig)
    ensures budget.perSegment > 0 && budget.metadataEntries > 0 && budget.bytesPerTick > 0 ==> OpenAudit(codec, budget, []) == Ok([])
  {
  }

  /** Lines of nothing but white space are skipped wherever they stand. */
  lemma BlankLinesSkipped(codec: AuditCodec, space: Bytes, rest: Bytes, log: Events)
    requires forall x <- space :: x == 9 || x == 11 || x == 12 || x == 13 || x == 32
    ensures OpenFrom(codec, space + [NEWLINE] + rest, log) == OpenFrom(codec, rest, log)
  {
    hide LineEnd;
    var bytes := space + [NEWLINE] + rest;
    LineEndAt(space, rest);
    assert bytes[..|space|] == space && bytes[|space| + 1..] == rest;
    assert forall i :: 0 <= i < |space| ==> space[i] in space;
  }

  /** A line may end in a carriage return and a newline. */
  lemma ReturnsStripped(codec: AuditCodec, e: AuditEvent, rest: Bytes, log: Events)
    requires codec.Faithful()
    ensures OpenFrom(codec, codec.json(e) + [RETURN, NEWLINE] + rest, log) == OpenFrom(codec, Line(codec, e) + rest, log)
  {
    hide LineEnd, ValidNext;
    var text := codec.json(e) + [RETURN];
    var bytes := codec.json(e) + [RETURN, NEWLINE] + rest;
    assert bytes == text + [NEWLINE] + rest;
    LineEndAt(text, rest);
    assert bytes[..|text|] == text && bytes[|text| + 1..] == rest && text[..|text| - 1] == codec.json(e);
    assert Line(codec, e) + rest == codec.json(e) + [NEWLINE] + rest;
    OpenEnded(codec, codec.json(e), rest, log);
  }

  // ----- Segments -----

  /** Two segments of one log follow each other exactly when the second has the next id, starts after the first and carries its root. */
  lemma FollowsExactly(
    pair: Merkle.Pair, budget: AuditBudget, log: Events, id: u64, start: nat, root: Option<string>, id': u64, start': nat, root': Option<string>)
    requires Numbered(log) && 1 <= start <= |log| && 1 <= start' <= |log| && |log| + 1 < U64_LIMIT && budget.Positive()
    ensures var (a, b) := (BuildSegment(pair, budget, log, id, start, root), BuildSegment(pair, budget, log, id', start', root'));
            && a.Ok? && b.Ok?
            && (Consistent(a.value, b.value) <==>
                  && start' == start + |a.value.leaves| && root' == Some(a.value.root)
                  && (if id + 1 < U64_LIMIT then id' == id + 1 else id' == id))
  {
    hide BuildSegment, Merkle.Root, Numbered;
    SegmentIs(pair, budget, log, id, start, root);
    SegmentIs(pair, budget, log, id', start', root');
  }

  // ----- Whole runs -----

  /** The entries whose append was acknowledged, in order. */
  function Acknowledged(codec: AuditCodec, budget: AuditBudget, steps: seq<AuditStep>): seq<Entry> {
    if steps == [] then []
    else
      var n := |steps| - 1;
      var before := AuditRun(codec, budget, AuditState([], [], 0), steps[..n]);
      Acknowledged(codec, budget, steps[..n])
      + if steps[n].AppendStep? && AppendEvent(codec, budget, before, steps[n].entry, steps[n].outcome).1.Ok? then [steps[n].entry] else []
  }

  lemma EntriesSnoc(log: Events, e: AuditEvent)
    ensures EntriesOf(log + [e]) == EntriesOf(log) + [EntryOf(e)]
  {
    assert (log + [e])[..|log|] == log;
  }

  lemma CleanTake(steps: seq<AuditStep>, n: nat)
    requires Clean(steps) && n <= |steps|
    ensures Clean(steps[..n])
  {
  }

  /** Without stray bytes the log says exactly what was acknowledged, in order, reopenings included. */
  lemma {:induction false} CleanRunRecords(codec: AuditCodec, budget: AuditBudget, steps: seq<AuditStep>)
    requires codec.Faithful() && Countable(budget) && Clean(steps)
    ensures EntriesOf(AuditRun(codec, budget, AuditState([], [], 0), steps).log) == Acknowledged(codec, budget, steps)
    decreases |steps|
  {
    hide AppendEvent, OpenAudit, Clean, EntryOf, Loggable, NewEvent;
    if steps != [] {
      var n := |steps| - 1;
      var s, step := AuditRun(codec, budget, AuditState([], [], 0), steps[..n]), steps[n];
      CleanTake(steps, n);
      CleanRunRecords(codec, budget, steps[..n]);
      match step
      case AppendStep(x, outcome) =>
        AppendsExactly(codec, budget, s, x, outcome);
        var r := AppendEvent(codec, budget, s, x, outcome).1;
        if r.Ok? {
          EntriesSnoc(s.log, r.value);
        }
      case TickStep =>
      case ReopenStep =>
        CleanIntact(codec, budget, steps[..n]);
        OpensExactly(codec, budget, steps[..n]);
    }
  }

  /** Nothing sensitive, long or numerous is ever acknowledged. */
  lemma {:induction false} AcknowledgedLoggable(codec: AuditCodec, budget: AuditBudget, steps: seq<AuditStep>)
    ensures forall x <- Acknowledged(codec, budget, steps) :: Loggable(x.metadata, budget.metadataEntries)
    decreases |steps|
  {
    hide AppendEvent, Loggable, AuditRun, EntryOf, NewEvent;
    if steps != [] {
      var n := |steps| - 1;
      AcknowledgedLoggable(codec, budget, steps[..n]);
      if steps[n].AppendStep? {
        AppendsExactly(codec, budget, AuditRun(codec, budget, AuditState([], [], 0), steps[..n]), steps[n].entry, steps[n].outcome);
      }
    }
  }

  /** The bytes acknowledged since the last tick or reopening. */
  function BytesThisTick(codec: AuditCodec, budget: AuditBudget, steps: seq<AuditStep>): nat {
    if steps == [] then 0
    else
      var n := |steps| - 1;
      var before := AuditRun(codec, budget, AuditState([], [], 0), steps[..n]);
      var sum := BytesThisTick(codec, budget, steps[..n]);
      match steps[n]
      case TickStep => 0
      case ReopenStep => if OpenAudit(codec, budget, before.file).Ok? then 0 else sum
      case AppendStep(x, outcome) =>
        if AppendEvent(codec, budget, before, x, outcome).1.Ok? then sum + |codec.json(NewEvent(codec, before.log, x))| + 1 else sum
  }

  /** In every run no more bytes are acknowledged in a tick than the budget allows, wherever it is below the type's maximum. */
  lemma {:induction false} TickBudgetHolds(codec: AuditCodec, budget: AuditBudget, steps: seq<AuditStep>)
    requires budget.bytesPerTick < U64_LIMIT - 1
    ensures BytesThisTick(codec, budget, steps) == AuditRun(codec, budget, AuditState([], [], 0), steps).spent <= budget.bytesPerTick
    decreases |steps|
  {
    hide MetadataOk, OpenAudit, NewEvent;
    if steps != [] {
      TickBudgetHolds(codec, budget, steps[..|steps| - 1]);
    }
  }
}
