/** Runs of the audit log with failed writes that leave bytes behind, and when its file still opens. */
module AuditRuns {
  import opened Wire
  import opened Outcomes
  import opened Tasks
  import opened Audit

  datatype AuditStep = AppendStep(entry: Entry, outcome: WriteOutcome) | TickStep | ReopenStep

  function AuditNext(codec: AuditCodec, budget: AuditBudget, s: AuditState, step: AuditStep): AuditState {
    match step
    case AppendStep(x, outcome) => AppendEvent(codec, budget, s, x, outcome).0
    case TickStep => s.(spent := 0)
    case ReopenStep =>
      match OpenAudit(codec, budget, s.file)
      case Err(_) => s
      case Ok(log) => AuditState(s.file, log, 0)
  }

  function AuditRun(codec: AuditCodec, budget: AuditBudget, s: AuditState, steps: seq<AuditStep>): AuditState {
    if steps == [] then s else AuditNext(codec, budget, AuditRun(codec, budget, s, steps[..|steps| - 1]), steps[|steps| - 1])
  }

  /** So small that a log within its capacity never reaches the last sequence number. */
  predicate Countable(budget: AuditBudget) {
    budget.Positive() && budget.Capacity() + 1 < U64_LIMIT
  }

  // ----- The health of the file -----

  /**
   Intact: the file is the lines of the log.  Doubled: a failed append left its whole line.  Bare:
   it left the line without its newline.  Joined: a reopening has adopted a bare line.  Ruined:
   the file will never open again.
   */
  datatype Health = Intact | Doubled | Bare | Joined | Ruined

  function NextHealth(codec: AuditCodec, budget: AuditBudget, s: AuditState, h: Health, step: AuditStep): Health {
    match step
    case TickStep => h
    case ReopenStep => if h.Doubled? then Intact else if h.Bare? then Joined else h
    case AppendStep(x, outcome) =>
      var (s', r) := AppendEvent(codec, budget, s, x, outcome);
      var landed, text := |s'.file| - |s.file|, |codec.json(NewEvent(codec, s.log, x))|;
      if landed <= 0 then h
      else if !h.Intact? then Ruined
      else if r.Ok? then Intact
      else if landed < text then Ruined
      else if landed == text then Bare
      else Doubled
  }

  function HealthAfter(codec: AuditCodec, budget: AuditBudget, steps: seq<AuditStep>): Health {
    if steps == [] then Intact
    else
      var n := |steps| - 1;
      NextHealth(codec, budget, AuditRun(codec, budget, AuditState([], [], 0), steps[..n]), HealthAfter(codec, budget, steps[..n]), steps[n])
  }

  // ----- What each health means -----

  /** Recovery stops at this line. */
  ghost predicate Stops(codec: AuditCodec, log: Events, text: Bytes) {
    TakeLine(codec, log, text) == Err(Corrupt)
  }

  /** A valid log, then a line of fragments at which recovery stops; `rest` follows once that line has ended. */
  ghost predicate Wreck(codec: AuditCodec, file: Bytes, log: Events, qs: seq<Bytes>, ended: bool, rest: Bytes) {
    && ValidChain(codec, log) && qs != [] && (forall q <- qs :: codec.Fragment(q)) && Stops(codec, log, Concat(qs))
    && (ended ==> Concat(qs) != [] && Concat(qs)[|Concat(qs)| - 1] != RETURN)
    && file == FileOf(codec, log) + Concat(qs) + if ended then [NEWLINE] + rest else []
  }

  ghost predicate Shape(codec: AuditCodec, budget: AuditBudget, s: AuditState, h: Health) {
    && ValidChain(codec, s.log) && |s.log| <= budget.Capacity()
    && match h
       case Intact => s.file == FileOf(codec, s.log)
       case Doubled => |s.log| < budget.Capacity() && exists e :: ValidNext(codec, s.log, e) && s.file == FileOf(codec, s.log) + Line(codec, e)
       case Bare => |s.log| < budget.Capacity() && exists e :: ValidNext(codec, s.log, e) && s.file == FileOf(codec, s.log) + codec.json(e)
       case Joined => s.log != [] && s.file == FileOf(codec, s.log[..|s.log| - 1]) + codec.json(s.log[|s.log| - 1])
       case Ruined => exists log, qs, ended, rest :: Wreck(codec, s.file, log, qs, ended, rest)
  }

  lemma FileSnoc(codec: AuditCodec, log: Events, e: AuditEvent)
    ensures FileOf(codec, log + [e]) == FileOf(codec, log) + Line(codec, e)
  {
    assert (log + [e])[..|log|] == log;
  }

  lemma ChainSnoc(codec: AuditCodec, log: Events, e: AuditEvent)
    requires ValidChain(codec, log) && ValidNext(codec, log, e)
    ensures ValidChain(codec, log + [e])
  {
    hide ValidNext;
    assert (log + [e])[..|log|] == log;
  }

  lemma TakeEvent(codec: AuditCodec, log: Events, e: AuditEvent)
    requires codec.Faithful()
    ensures TakeLine(codec, log, codec.json(e)) == if ValidNext(codec, log, e) then Ok(log + [e]) else Err(Corrupt)
  {
    hide ValidNext;
  }

  /** What a file with one unterminated event after a valid log opens to. */
  lemma OpenBare(codec: AuditCodec, log: Events, e: AuditEvent)
    requires codec.Faithful() && ValidChain(codec, log) && ValidNext(codec, log, e)
    ensures OpenFrom(codec, FileOf(codec, log) + codec.json(e), []) == Ok(log + [e])
  {
    hide ValidNext, ValidChain, OpenFrom, TakeLine, FileOf;
    OpenValid(codec, log, codec.json(e));
    OpenTail(codec, codec.json(e), log);
    TakeEvent(codec, log, e);
  }

  lemma {:induction false} ConcatPlain(codec: AuditCodec, qs: seq<Bytes>)
    requires codec.Faithful() && qs != [] && forall q <- qs :: codec.Fragment(q)
    ensures NEWLINE !in Concat(qs) && Concat(qs) != []
  {
    var n := |qs| - 1;
    assert qs[n] in qs;
    FragmentPlain(codec, qs[n]);
    if n > 0 {
      ConcatPlain(codec, qs[..n]);
    }
  }

  lemma FragmentPlain(codec: AuditCodec, q: Bytes)
    requires codec.Faithful() && codec.Fragment(q)
    ensures NEWLINE !in q && q != []
  {
    var e :| q <= codec.json(e);
    assert q == codec.json(e)[..|q|];
  }

  lemma WreckRefused(codec: AuditCodec, file: Bytes, log: Events, qs: seq<Bytes>, ended: bool, rest: Bytes)
    requires codec.Faithful() && Wreck(codec, file, log, qs, ended, rest)
    ensures OpenFrom(codec, file, []) == Err(Corrupt)
  {
    hide OpenFrom, TakeLine, FileOf, ValidChain, Concat;
    var text := Concat(qs);
    ConcatPlain(codec, qs);
    if ended {
      assert file == FileOf(codec, log) + (text + [NEWLINE] + rest);
      OpenValid(codec, log, text + [NEWLINE] + rest);
      OpenEnded(codec, text, rest, log);
    } else {
      assert file == FileOf(codec, log) + text;
      OpenValid(codec, log, text);
      OpenTail(codec, text, log);
    }
  }

  /** What opening finds, for each health. */
  lemma HealthOpens(codec: AuditCodec, budget: AuditBudget, s: AuditState, h: Health)
    requires codec.Faithful() && budget.Positive() && Shape(codec, budget, s, h)
    ensures h.Intact? || h.Joined? ==> OpenAudit(codec, budget, s.file) == Ok(s.log)
    ensures h.Doubled? || h.Bare? ==> exists e :: ValidNext(codec, s.log, e) && OpenAudit(codec, budget, s.file) == Ok(s.log + [e])
    ensures h.Ruined? ==> OpenAudit(codec, budget, s.file) == Err(Corrupt)
  {
    hide ValidNext, OpenFrom, FileOf, Wreck;
    match h
    case Intact => ReopensSame(codec, budget, s);
    case Doubled =>
      var e :| ValidNext(codec, s.log, e) && s.file == FileOf(codec, s.log) + Line(codec, e);
      FileSnoc(codec, s.log, e);
      ChainSnoc(codec, s.log, e);
      ReopensSame(codec, budget, AuditState(s.file, s.log + [e], 0));
    case Bare =>
      var e :| ValidNext(codec, s.log, e) && s.file == FileOf(codec, s.log) + codec.json(e);
      OpenBare(codec, s.log, e);
    case Joined =>
      var n := |s.log| - 1;
      OpenBare(codec, s.log[..n], s.log[n]);
      assert s.log[..n] + [s.log[n]] == s.log;
    case Ruined =>
      var log, qs, ended, rest :| Wreck(codec, s.file, log, qs, ended, rest);
      WreckRefused(codec, s.file, log, qs, ended, rest);
  }

  // ----- Every step -----

  /** The bytes that an append adds to the file: a beginning of one new line. */
  lemma AppendAdds(codec: AuditCodec, budget: AuditBudget, s: AuditState, x: Entry, outcome: WriteOutcome) returns (k: nat)
    ensures var (s', r) := AppendEvent(codec, budget, s, x, outcome);
            var line := Line(codec, NewEvent(codec, s.log, x));
            && k <= |line| && s'.file == s.file + line[..k]
            && (r.Ok? ==> k == |line| && s'.log == s.log + [NewEvent(codec, s.log, x)]) && (r.Err? ==> s'.log == s.log)
            && (k > 0 ==> |s.log| < budget.Capacity())
  {
    hide MetadataOk, NewEvent;
    var (s', r) := AppendEvent(codec, budget, s, x, outcome);
    var line := Line(codec, NewEvent(codec, s.log, x));
    k := |s'.file| - |s.file|;
    assert line[..|line|] == line && s.file + [] == s.file && line[..0] == [];
  }

  /** Part of a line after a valid log. */
  lemma TornWreck(codec: AuditCodec, log: Events, e: AuditEvent, k: nat)
    requires codec.Faithful() && ValidChain(codec, log) && 0 < k < |codec.json(e)|
    ensures Wreck(codec, FileOf(codec, log) + Line(codec, e)[..k], log, [codec.json(e)[..k]], false, [])
  {
    hide ValidChain, FileOf;
    var q := codec.json(e)[..k];
    assert q <= codec.json(e) && q < codec.json(e);
    assert codec.Fragment(q) && codec.Ragged([q]);
    ConcatOne(q);
    assert Line(codec, e)[..k] == q;
  }

  lemma ConcatOne(q: Bytes)
    ensures Concat([q]) == q
  {
    assert [q][..0] == [] && [] + q == q;
  }

  lemma ConcatSnoc(qs: seq<Bytes>, q: Bytes)
    ensures Concat(qs + [q]) == Concat(qs) + q
  {
    assert (qs + [q])[..|qs|] == qs;
  }

  /** The beginning of a line as a fragment, and the newline if it is all there. */
  function Piece(codec: AuditCodec, e: AuditEvent, k: nat): Bytes {
    if k < |codec.json(e)| then codec.json(e)[..k] else codec.json(e)
  }

  lemma PieceOf(codec: AuditCodec, e: AuditEvent, k: nat)
    requires codec.Faithful() && 0 < k <= |Line(codec, e)|
    ensures codec.Fragment(Piece(codec, e, k))
    ensures Line(codec, e)[..k] == Piece(codec, e, k) + if k == |Line(codec, e)| then [NEWLINE] else []
  {
    assert Piece(codec, e, k) <= codec.json(e);
  }

  /** More bytes of a line after fragments that have not ended: still a wreck. */
  lemma RaggedWreck(codec: AuditCodec, log: Events, qs: seq<Bytes>, e: AuditEvent, k: nat)
    requires codec.Faithful() && ValidChain(codec, log) && qs != [] && (forall q <- qs :: codec.Fragment(q)) && 0 < k <= |Line(codec, e)|
    ensures Wreck(codec, FileOf(codec, log) + Concat(qs) + Line(codec, e)[..k], log, qs + [Piece(codec, e, k)], k == |Line(codec, e)|, [])
  {
    hide ValidChain, FileOf, Concat, Piece;
    var q := Piece(codec, e, k);
    PieceOf(codec, e, k);
    ConcatSnoc(qs, q);
    assert codec.Ragged(qs + [q]);
    if k == |Line(codec, e)| {
      WholePiece(codec, e);
      assert Concat(qs + [q])[|Concat(qs + [q])| - 1] == q[|q| - 1];
    }
    var text, tail := Concat(qs) + q, if k == |Line(codec, e)| then [NEWLINE] else [];
    assert FileOf(codec, log) + Concat(qs) + (q + tail) == FileOf(codec, log) + text + tail;
    assert [NEWLINE] + [] == [NEWLINE];
  }

  lemma WholePiece(codec: AuditCodec, e: AuditEvent)
    requires codec.Faithful()
    ensures var q := Piece(codec, e, |Line(codec, e)|); q == codec.json(e) && q != [] && q[|q| - 1] != RETURN
  {
  }

  /** A wreck only grows. */
  lemma WreckGrows(codec: AuditCodec, file: Bytes, log: Events, qs: seq<Bytes>, ended: bool, rest: Bytes, e: AuditEvent, k: nat)
    requires codec.Faithful() && Wreck(codec, file, log, qs, ended, rest) && 0 < k <= |Line(codec, e)|
    ensures exists log', qs', ended', rest' :: Wreck(codec, file + Line(codec, e)[..k], log', qs', ended', rest')
  {
    hide ValidChain, FileOf, Concat, Stops, Line;
    var more := Line(codec, e)[..k];
    if ended {
      assert file + more == FileOf(codec, log) + Concat(qs) + ([NEWLINE] + (rest + more));
      assert Wreck(codec, file + more, log, qs, true, rest + more);
    } else {
      assert file == FileOf(codec, log) + Concat(qs);
      RaggedWreck(codec, log, qs, e, k);
    }
  }

  /** A new event that follows the log does not follow it once another has been adopted. */
  lemma SequenceTaken(codec: AuditCodec, budget: AuditBudget, log: Events, e: AuditEvent, f: AuditEvent)
    requires Countable(budget) && ValidChain(codec, log) && |log| < budget.Capacity() && ValidNext(codec, log, e) && ValidNext(codec, log, f)
    ensures !ValidNext(codec, log + [e], f)
  {
    ChainNumbered(codec, log);
  }

  /** A whole event that does not follow the log, with or without its newline. */
  lemma StrayWreck(codec: AuditCodec, log: Events, f: AuditEvent, k: nat)
    requires codec.Faithful() && ValidChain(codec, log) && !ValidNext(codec, log, f) && |codec.json(f)| <= k <= |Line(codec, f)|
    ensures Wreck(codec, FileOf(codec, log) + Line(codec, f)[..k], log, [codec.json(f)], k == |Line(codec, f)|, [])
  {
    hide ValidNext, ValidChain, FileOf, Concat, TakeLine;
    var text, tail := codec.json(f), if k == |Line(codec, f)| then [NEWLINE] else [];
    TakeEvent(codec, log, f);
    PieceOf(codec, f, k);
    ConcatOne(text);
    assert [NEWLINE] + [] == [NEWLINE];
    assert FileOf(codec, log) + (text + tail) == FileOf(codec, log) + text + tail;
  }

  /** Bytes after a whole stray line: that line takes the sequence number of the next. */
  lemma DoubledWreck(codec: AuditCodec, budget: AuditBudget, log: Events, e: AuditEvent, f: AuditEvent, k: nat)
    requires codec.Faithful() && Countable(budget) && ValidChain(codec, log) && |log| < budget.Capacity()
    requires ValidNext(codec, log, e) && ValidNext(codec, log, f) && 0 < k <= |Line(codec, f)|
    ensures exists log', qs, ended, rest :: Wreck(codec, FileOf(codec, log) + Line(codec, e) + Line(codec, f)[..k], log', qs, ended, rest)
  {
    hide ValidNext, ValidChain, FileOf, Wreck, Line;
    var grown := log + [e];
    ChainSnoc(codec, log, e);
    FileSnoc(codec, log, e);
    if k < |codec.json(f)| {
      TornWreck(codec, grown, f, k);
    } else {
      SequenceTaken(codec, budget, log, e, f);
      StrayWreck(codec, grown, f, k);
    }
  }

  /** Bytes after an unterminated event. */
  lemma BareWreck(codec: AuditCodec, log: Events, e: AuditEvent, f: AuditEvent, k: nat)
    requires codec.Faithful() && ValidChain(codec, log) && 0 < k <= |Line(codec, f)|
    ensures exists log', qs, ended, rest :: Wreck(codec, FileOf(codec, log) + codec.json(e) + Line(codec, f)[..k], log', qs, ended, rest)
  {
    hide ValidChain, FileOf, Line;
    assert codec.json(e) <= codec.json(e);
    assert codec.Fragment(codec.json(e));
    ConcatOne(codec.json(e));
    RaggedWreck(codec, log, [codec.json(e)], f, k);
  }

  lemma AppendHealth(codec: AuditCodec, budget: AuditBudget, s: AuditState, h: Health, x: Entry, outcome: WriteOutcome)
    requires codec.Faithful() && Countable(budget) && Shape(codec, budget, s, h)
    ensures Shape(codec, budget, AppendEvent(codec, budget, s, x, outcome).0, NextHealth(codec, budget, s, h, AppendStep(x, outcome)))
  {
    hide MetadataOk, ValidNext, FileOf, Wreck, AppendEvent, ValidChain, NewEvent;
    var (s', r) := AppendEvent(codec, budget, s, x, outcome);
    var e := NewEvent(codec, s.log, x);
    var k := AppendAdds(codec, budget, s, x, outcome);
    var line := Line(codec, e);
    NewIsNext(codec, s.log, x);
    ChainSnoc(codec, s.log, e);
    FileSnoc(codec, s.log, e);
    assert line[..|line|] == line && s.file + [] == s.file && line[..0] == [];
    if k > 0 {
      match h
      case Intact =>
        if k < |codec.json(e)| {
          TornWreck(codec, s.log, e, k);
        }
      case Doubled =>
        var d :| ValidNext(codec, s.log, d) && s.file == FileOf(codec, s.log) + Line(codec, d);
        DoubledWreck(codec, budget, s.log, d, e, k);
      case Bare =>
        var d :| ValidNext(codec, s.log, d) && s.file == FileOf(codec, s.log) + codec.json(d);
        BareWreck(codec, s.log, d, e, k);
      case Joined =>
        var n := |s.log| - 1;
        ChainStart(codec, s.log);
        BareWreck(codec, s.log[..n], s.log[n], e, k);
      case Ruined =>
        var log, qs, ended, rest :| Wreck(codec, s.file, log, qs, ended, rest);
        WreckGrows(codec, s.file, log, qs, ended, rest, e, k);
    }
  }

  lemma ChainStart(codec: AuditCodec, log: Events)
    requires ValidChain(codec, log) && log != []
    ensures ValidChain(codec, log[..|log| - 1]) && ValidNext(codec, log[..|log| - 1], log[|log| - 1])
  {
  }

  lemma ReopenHealth(codec: AuditCodec, budget: AuditBudget, s: AuditState, h: Health)
    requires codec.Faithful() && Countable(budget) && Shape(codec, budget, s, h)
    ensures Shape(codec, budget, AuditNext(codec, budget, s, ReopenStep), NextHealth(codec, budget, s, h, ReopenStep))
  {
    hide ValidNext, FileOf, Wreck, OpenAudit, ValidChain;
    HealthOpens(codec, budget, s, h);
    match h
    case Doubled =>
      var e :| ValidNext(codec, s.log, e) && s.file == FileOf(codec, s.log) + Line(codec, e);
      Adopted(codec, budget, s, e);
      FileSnoc(codec, s.log, e);
      ChainSnoc(codec, s.log, e);
    case Bare =>
      var e :| ValidNext(codec, s.log, e) && s.file == FileOf(codec, s.log) + codec.json(e);
      Adopted(codec, budget, s, e);
      ChainSnoc(codec, s.log, e);
      assert (s.log + [e])[..|s.log|] == s.log;
    case _ =>
  }

  /** A stray event is what a reopening adopts. */
  lemma Adopted(codec: AuditCodec, budget: AuditBudget, s: AuditState, e: AuditEvent)
    requires codec.Faithful() && budget.Positive() && ValidChain(codec, s.log) && |s.log| < budget.Capacity() && ValidNext(codec, s.log, e)
    requires s.file == FileOf(codec, s.log) + Line(codec, e) || s.file == FileOf(codec, s.log) + codec.json(e)
    ensures OpenAudit(codec, budget, s.file) == Ok(s.log + [e])
  {
    hide ValidNext, FileOf, ValidChain, OpenFrom;
    ChainSnoc(codec, s.log, e);
    FileSnoc(codec, s.log, e);
    if s.file == FileOf(codec, s.log) + Line(codec, e) {
      ReopensSame(codec, budget, AuditState(s.file, s.log + [e], 0));
    } else {
      OpenBare(codec, s.log, e);
    }
  }

  // ----- Every run -----

  lemma {:induction false} EveryRunShaped(codec: AuditCodec, budget: AuditBudget, steps: seq<AuditStep>)
    requires codec.Faithful() && Countable(budget)
    ensures Shape(codec, budget, AuditRun(codec, budget, AuditState([], [], 0), steps), HealthAfter(codec, budget, steps))
    decreases |steps|
  {
    hide Shape, AuditNext, NextHealth;
    if steps == [] {
      StartShape(codec, budget);
    } else {
      var n := |steps| - 1;
      EveryRunShaped(codec, budget, steps[..n]);
      StepShape(codec, budget, AuditRun(codec, budget, AuditState([], [], 0), steps[..n]), HealthAfter(codec, budget, steps[..n]), steps[n]);
    }
  }

  lemma StartShape(codec: AuditCodec, budget: AuditBudget)
    ensures Shape(codec, budget, AuditState([], [], 0), Intact)
  {
  }

  lemma StepShape(codec: AuditCodec, budget: AuditBudget, s: AuditState, h: Health, step: AuditStep)
    requires codec.Faithful() && Countable(budget) && Shape(codec, budget, s, h)
    ensures Shape(codec, budget, AuditNext(codec, budget, s, step), NextHealth(codec, budget, s, h, step))
  {
    hide AppendEvent, OpenAudit, FileOf, Wreck, ValidChain, ValidNext;
    match step
    case AppendStep(x, outcome) =>
      AppendHealth(codec, budget, s, h, x, outcome);
    case TickStep =>
    case ReopenStep => ReopenHealth(codec, budget, s, h);
  }

  /**
   After every run the file opens to exactly the events in memory if and only if its health is
   intact or joined; it is refused as corrupt if and only if its health is ruined; otherwise it
   opens to one event more.
   */
  lemma OpensExactly(codec: AuditCodec, budget: AuditBudget, steps: seq<AuditStep>)
    requires codec.Faithful() && Countable(budget)
    ensures var s, h := AuditRun(codec, budget, AuditState([], [], 0), steps), HealthAfter(codec, budget, steps);
            && (OpenAudit(codec, budget, s.file) == Ok(s.log) <==> h.Intact? || h.Joined?)
            && (OpenAudit(codec, budget, s.file) == Err(Corrupt) <==> h.Ruined?)
            && (h.Doubled? || h.Bare? ==> exists e :: OpenAudit(codec, budget, s.file) == Ok(s.log + [e]))
  {
    hide Shape, AuditRun, HealthAfter, OpenAudit, ValidNext;
    EveryRunShaped(codec, budget, steps);
    var s, h := AuditRun(codec, budget, AuditState([], [], 0), steps), HealthAfter(codec, budget, steps);
    HealthOpens(codec, budget, s, h);
    assert forall e: AuditEvent :: |s.log + [e]| != |s.log|;
  }

  /** After a failed append to an intact log, by how much of the line has landed. */
  lemma FailedAppend(codec: AuditCodec, budget: AuditBudget, s: AuditState, x: Entry, landed: nat)
    requires codec.Faithful() && Countable(budget) && Shape(codec, budget, s, Intact)
    requires AppendEvent(codec, budget, s, x, WriteFails(landed)).1 == Err(Storage)
    ensures var e := NewEvent(codec, s.log, x);
            OpenAudit(codec, budget, AppendEvent(codec, budget, s, x, WriteFails(landed)).0.file) ==
            if landed == 0 then Ok(s.log) else if landed < |codec.json(e)| then Err(Corrupt) else Ok(s.log + [e])
  {
    hide MetadataOk, ValidNext, FileOf, Wreck, ValidChain, NewEvent, OpenAudit;
    var s', e := AppendEvent(codec, budget, s, x, WriteFails(landed)).0, NewEvent(codec, s.log, x);
    var line := Line(codec, e);
    assert s.file + line[..0] == s.file;
    if landed == 0 {
      HealthOpens(codec, budget, s, Intact);
    } else if landed < |codec.json(e)| {
      TornWreck(codec, s.log, e, landed);
      WreckRefused(codec, s'.file, s.log, [codec.json(e)[..landed]], false, []);
      RefusedOpens(codec, budget, s'.file);
    } else {
      NewIsNext(codec, s.log, x);
      assert landed == |codec.json(e)| ==> line[..landed] == codec.json(e);
      Adopted(codec, budget, s', e);
    }
  }

  lemma RefusedOpens(codec: AuditCodec, budget: AuditBudget, file: Bytes)
    requires budget.Positive() && OpenFrom(codec, file, []) == Err(Corrupt)
    ensures OpenAudit(codec, budget, file) == Err(Corrupt)
  {
  }

  /** No failed write leaves bytes behind. */
  predicate Clean(steps: seq<AuditStep>) {
    forall step <- steps :: step.AppendStep? && step.outcome.WriteFails? ==> step.outcome.landed == 0
  }

  /** Without stray bytes the file stays intact. */
  lemma {:induction false} CleanIntact(codec: AuditCodec, budget: AuditBudget, steps: seq<AuditStep>)
    requires Clean(steps)
    ensures HealthAfter(codec, budget, steps) == Intact
    decreases |steps|
  {
    hide MetadataOk, NewEvent, Line, OpenAudit, AuditRun;
    if steps != [] {
      assert steps[|steps| - 1] in steps;
      CleanIntact(codec, budget, steps[..|steps| - 1]);
    }
  }
}
