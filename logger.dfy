/** The asynchronous logger: the level threshold and its LOG_LEVEL
    setting, the text of one log line, and the bounded queue between the
    threads that log and the writer thread that appends to the log file. */
module Logger {
  import opened Strings

  /** Slots in the queue. */
  const LogQueueSize: nat := 1024
  /** Bytes in the buffer one line is formatted into. */
  const MaxLogBuffer: nat := 4096

  // ---------------------------------------------------------------------
  // Levels

  datatype Level = Trace | Debug | Info | Warn | Error | Fatal

  /** The value of the level in log_level_t. */
  function Rank(l: Level): (r: nat)
    ensures r <= 5
  {
    match l
    case Trace => 0
    case Debug => 1
    case Info => 2
    case Warn => 3
    case Error => 4
    case Fatal => 5
  }

  /** The level's entry in level_strings. */
  function Name(l: Level): string {
    match l
    case Trace => "TRACE"
    case Debug => "DEBUG"
    case Info => "INFO"
    case Warn => "WARN"
    case Error => "ERROR"
    case Fatal => "FATAL"
  }

  /** What logger_init makes of LOG_LEVEL: the level whose name the value
      equals ignoring case, tried from TRACE to FATAL; with the variable
      unset or naming no level, the level stays what it was. */
  function ParseLevel(setting: Option<string>, current: Level): (l: Level)
    ensures setting.None? ==> l == current
    ensures l != current ==> setting.Some? && EqualsIgnoreCase(setting.value, Name(l))
  {
    match setting
    case None => current
    case Some(s) =>
      if EqualsIgnoreCase(s, "TRACE") then Trace
      else if EqualsIgnoreCase(s, "DEBUG") then Debug
      else if EqualsIgnoreCase(s, "INFO") then Info
      else if EqualsIgnoreCase(s, "WARN") then Warn
      else if EqualsIgnoreCase(s, "ERROR") then Error
      else if EqualsIgnoreCase(s, "FATAL") then Fatal
      else current
  }

  /** The six names differ even ignoring case (their first letters do). */
  lemma NamesDiffer(a: Level, b: Level)
    requires a != b
    ensures !EqualsIgnoreCase(Name(a), Name(b))
  {
    assert LowerString(Name(a))[0] == Lower(Name(a)[0]);
    assert LowerString(Name(b))[0] == Lower(Name(b)[0]);
  }

  /** A value naming a level, in any case, selects that level. */
  lemma ParseLevelNames(s: string, l: Level, current: Level)
    requires EqualsIgnoreCase(s, Name(l))
    ensures ParseLevel(Some(s), current) == l
  {
    var r := ParseLevel(Some(s), current);
    if r != l {
      if r != current {
        NamesDiffer(r, l);
      } else {
        match l
        case Trace =>
        case Debug => NamesDiffer(Trace, Debug);
        case Info => NamesDiffer(Trace, Info); NamesDiffer(Debug, Info);
        case Warn => NamesDiffer(Trace, Warn); NamesDiffer(Debug, Warn); NamesDiffer(Info, Warn);
        case Error =>
          NamesDiffer(Trace, Error); NamesDiffer(Debug, Error); NamesDiffer(Info, Error);
          NamesDiffer(Warn, Error);
        case Fatal =>
          NamesDiffer(Trace, Fatal); NamesDiffer(Debug, Fatal); NamesDiffer(Info, Fatal);
          NamesDiffer(Warn, Fatal); NamesDiffer(Error, Fatal);
      }
    }
  }

  /** A value naming no level leaves the level alone. */
  lemma ParseLevelUnrecognised(s: string, current: Level)
    requires forall l: Level :: !EqualsIgnoreCase(s, Name(l))
    ensures ParseLevel(Some(s), current) == current
  {
    assert !EqualsIgnoreCase(s, Name(Trace)) && !EqualsIgnoreCase(s, Name(Debug));
    assert !EqualsIgnoreCase(s, Name(Info)) && !EqualsIgnoreCase(s, Name(Warn));
    assert !EqualsIgnoreCase(s, Name(Error)) && !EqualsIgnoreCase(s, Name(Fatal));
  }

  /** Each level's own name, or its name in lower case, reads back as it. */
  lemma ParseLevelRoundTrip(l: Level, current: Level)
    ensures ParseLevel(Some(Name(l)), current) == l
    ensures ParseLevel(Some(LowerString(Name(l))), current) == l
  {
    ParseLevelNames(Name(l), l, current);
    assert LowerString(LowerString(Name(l))) == LowerString(Name(l));
    ParseLevelNames(LowerString(Name(l)), l, current);
  }

  /** log_message drops a record whose level is below the threshold. */
  predicate Accepts(threshold: Level, level: Level) {
    Rank(level) >= Rank(threshold)
  }

  /** Raising the threshold keeps fewer records: FATAL is always kept, and
      a TRACE threshold keeps every record. */
  lemma ThresholdOrder(t: Level, u: Level, l: Level)
    requires Rank(t) <= Rank(u)
    ensures Accepts(u, l) ==> Accepts(t, l)
    ensures Accepts(t, Fatal) && Accepts(Trace, l)
    ensures Accepts(t, l) <==> !(Rank(l) < Rank(t))
  {
  }

  // ---------------------------------------------------------------------
  // The text of one line

  const ColourReset := "\U{1B}[0m"

  /** The level's entry in level_colors. */
  function Colour(l: Level): string {
    match l
    case Trace => "\U{1B}[37m"
    case Debug => "\U{1B}[36m"
    case Info => "\U{1B}[32m"
    case Warn => "\U{1B}[33m"
    case Error => "\U{1B}[31m"
    case Fatal => "\U{1B}[35m"
  }

  /** printf's %-<width>s: the text, padded with spaces on the right. */
  function PadRight(s: string, width: nat): (r: string)
    ensures |r| == if |s| < width then width else |s|
    ensures r[..|s|] == s
    ensures forall k :: |s| <= k < |r| ==> r[k] == ' '
  {
    if |s| >= width then s else s + seq(width - |s|, _ => ' ')
  }

  /** "%s%-5s%s ": the coloured level name. */
  function LevelTag(l: Level): string {
    Colour(l) + (PadRight(Name(l), 5) + (ColourReset + " "))
  }

  /** "(%s:%d) ": where the record was logged. */
  function Location(srcFile: string, line: nat): string {
    "(" + (srcFile + (":" + (NatToString(line) + ") ")))
  }

  /** The line log_message formats, before any truncation: the timestamp
      (the date, time and milliseconds, taken as given), the level, the
      location and the message. */
  function LogText(stamp: string, l: Level, srcFile: string, line: nat, message: string): string {
    stamp + LevelTag(l) + Location(srcFile, line) + message
  }

  /** The rule "add a newline if not present": a non-empty line that does
      not end in a newline gets exactly one. */
  function EnsureNewline(line: string): (r: string)
    ensures |line| <= |r| <= |line| + 1 && r[..|line|] == line
    ensures line != [] ==> r[|r| - 1] == '\n'
    ensures r == line <==> line == [] || line[|line| - 1] == '\n'
  {
    if line != [] && line[|line| - 1] != '\n' then line + "\n" else line
  }

  /** Ensuring the newline twice is ensuring it once. */
  lemma EnsureNewlineIdempotent(line: string)
    ensures EnsureNewline(EnsureNewline(line)) == EnsureNewline(line)
  {
  }

  /** The line log_message hands to the queue when its offset is kept
      within the buffer: as much of the text as fits before the buffer's
      last byte, ending in a newline. A text that fits gets exactly the
      newline rule; a cut text that does not end in a newline has its last
      stored character replaced by one. It always fits with its NUL. */
  function BoundedLine(text: string): (r: string)
    ensures |r| < MaxLogBuffer
    ensures |text| < MaxLogBuffer - 1 ==> r == EnsureNewline(text)
    ensures text != [] ==> |r| >= 1 && r[|r| - 1] == '\n' && r[..|r| - 1] == text[..|r| - 1]
    ensures var s := Truncate(text, MaxLogBuffer - 1);
            r == s || r == s + "\n" || r == Truncate(text, MaxLogBuffer - 2) + "\n"
  {
    var s := Truncate(text, MaxLogBuffer - 1);
    if s == [] || s[|s| - 1] == '\n' then s
    else if |s| < MaxLogBuffer - 1 then s + "\n"
    else Truncate(text, MaxLogBuffer - 2) + "\n"
  }

  /** log_message's formatting into its MAX_LOG_BUFFER stack buffer, with
      each snprintf's return clamped to what it stored, and the newline
      appended when the buffer has room for it and its NUL, or stored over
      the last character when it has not. */
  method FormatLine(buffer: array<char>, stamp: string, l: Level, srcFile: string, line: nat,
                    message: string) returns (offset: nat)
    requires buffer.Length == MaxLogBuffer
    modifies buffer
    ensures offset < buffer.Length && buffer[offset] == '\0'
    ensures buffer[..offset] == BoundedLine(LogText(stamp, l, srcFile, line, message))
  {
    offset := FormatPieces(buffer, stamp, LevelTag(l), Location(srcFile, line), message);
  }

  /** The four snprintf calls of log_message and the newline rule, given
      the texts they expand to. */
  method FormatPieces(buffer: array<char>, stamp: string, tag: string, location: string,
                      message: string) returns (offset: nat)
    requires buffer.Length == MaxLogBuffer
    modifies buffer
    ensures offset < buffer.Length && buffer[offset] == '\0'
    ensures buffer[..offset] == BoundedLine(stamp + tag + location + message)
  {
    offset := EmitAfter(buffer, 0, [], stamp);
    offset := EmitAfter(buffer, offset, stamp, tag);
    offset := EmitAfter(buffer, offset, stamp + tag, location);
    offset := EmitAfter(buffer, offset, stamp + tag + location, message);
    offset := AppendNewline(buffer, offset, stamp + tag + location + message);
  }

  /** "Add newline if not present", on a buffer holding text cut to fit. */
  method AppendNewline(buffer: array<char>, offset: nat, ghost text: string) returns (next: nat)
    requires buffer.Length == MaxLogBuffer && offset < buffer.Length && buffer[offset] == '\0'
    requires buffer[..offset] == Truncate(text, MaxLogBuffer - 1)
    modifies buffer
    ensures next < buffer.Length && buffer[next] == '\0'
    ensures buffer[..next] == BoundedLine(text)
  {
    next := offset;
    if offset > 0 && buffer[offset - 1] != '\n' {
      ghost var stored := buffer[..offset];
      if offset < buffer.Length - 1 {
        buffer[offset] := '\n';
        next := offset + 1;
        buffer[next] := '\0';
        assert buffer[..next] == stored + "\n";
      } else {
        buffer[offset - 1] := '\n';
        assert buffer[..next] == stored[..offset - 1] + "\n";
        assert stored[..offset - 1] == Truncate(text, MaxLogBuffer - 2);
      }
    }
  }

  // ---------------------------------------------------------------------
  // As written, offset counts what each snprintf would have stored

  /** The offset log_message reaches as written: every snprintf returns,
      and offset grows by, the length its text would have had, whether or
      not it fitted in the space left. */
  function AsWrittenOffset(stamp: string, l: Level, srcFile: string, line: nat, message: string): (offset: nat)
  {
    var afterStamp := |stamp|;
    var afterTag := afterStamp + |LevelTag(l)|;
    var afterLocation := afterTag + |Location(srcFile, line)|;
    afterLocation + |message|
  }

  /** As written, offset is the length of the whole text, so a message of
      MAX_LOG_BUFFER characters or more puts offset past the buffer: the
      newline is stored at buffer[offset], beyond the end, and enqueue_log
      copies offset bytes out of the buffer. The clamped form always
      fits. */
  lemma LogLineOverflow(stamp: string, l: Level, srcFile: string, line: nat)
    ensures forall message :: AsWrittenOffset(stamp, l, srcFile, line, message)
                              == |LogText(stamp, l, srcFile, line, message)|
    ensures forall message :: |message| >= MaxLogBuffer ==>
              AsWrittenOffset(stamp, l, srcFile, line, message) >= MaxLogBuffer
              && |BoundedLine(LogText(stamp, l, srcFile, line, message))| < MaxLogBuffer
  {
  }

  // ---------------------------------------------------------------------
  // The queue and the writer

  /** One queue slot: the copy of the message (None after its allocation
      failed) and its length. */
  datatype Entry = Entry(message: Option<seq<char>>, length: nat)

  lemma RingStep(head: nat, k: nat)
    requires head < LogQueueSize && k < LogQueueSize
    ensures (head + k) % LogQueueSize == if head + k < LogQueueSize then head + k else head + k - LogQueueSize
    ensures ((head + k) % LogQueueSize + 1) % LogQueueSize == (head + k + 1) % LogQueueSize
  {
  }

  /** The slots of the ring that start at head hold the queued messages,
      oldest first. */
  ghost predicate Holds(slots: seq<Entry>, head: nat, queued: seq<seq<char>>) {
    |slots| == LogQueueSize && head < LogQueueSize && |queued| <= LogQueueSize
    && forall k :: 0 <= k < |queued| ==>
         slots[(head + k) % LogQueueSize] == Entry(Some(queued[k]), |queued[k]|)
  }

  /** Storing a message in the first free slot queues it after the rest. */
  lemma HoldsPush(slots: seq<Entry>, head: nat, queued: seq<seq<char>>, m: seq<char>)
    requires Holds(slots, head, queued) && |queued| < LogQueueSize
    ensures Holds(slots[(head + |queued|) % LogQueueSize := Entry(Some(m), |m|)], head, queued + [m])
  {
    var t := (head + |queued|) % LogQueueSize;
    var slots' := slots[t := Entry(Some(m), |m|)];
    var queued' := queued + [m];
    RingStep(head, |queued|);
    forall k | 0 <= k < |queued'|
      ensures slots'[(head + k) % LogQueueSize] == Entry(Some(queued'[k]), |queued'[k]|)
    {
      RingStep(head, k);
    }
  }

  /** Overwriting the first free slot leaves the queue as it was. */
  lemma HoldsOverwriteFree(slots: seq<Entry>, head: nat, queued: seq<seq<char>>, e: Entry)
    requires Holds(slots, head, queued) && |queued| < LogQueueSize
    ensures Holds(slots[(head + |queued|) % LogQueueSize := e], head, queued)
  {
    var t := (head + |queued|) % LogQueueSize;
    RingStep(head, |queued|);
    forall k | 0 <= k < |queued|
      ensures slots[t := e][(head + k) % LogQueueSize] == Entry(Some(queued[k]), |queued[k]|)
    {
      RingStep(head, k);
    }
  }

  /** The slot at head holds the oldest message; the rest start one slot on. */
  lemma HoldsPop(slots: seq<Entry>, head: nat, queued: seq<seq<char>>)
    requires Holds(slots, head, queued) && |queued| > 0
    ensures slots[head] == Entry(Some(queued[0]), |queued[0]|)
    ensures Holds(slots, (head + 1) % LogQueueSize, queued[1..])
  {
    RingStep(head, 0);
    var h := (head + 1) % LogQueueSize;
    forall k | 0 <= k < |queued| - 1
      ensures slots[(h + k) % LogQueueSize] == Entry(Some(queued[1..][k]), |queued[1..][k]|)
    {
      RingStep(head, 0);
      assert h + k < 2 * LogQueueSize;
      RingStep(h, k);
      RingStep(head, k + 1);
      assert slots[(head + (k + 1)) % LogQueueSize] == Entry(Some(queued[k + 1]), |queued[k + 1]|);
    }
  }

  /** The logger's state: the level threshold, whether it is running, the
      log file's contents, and the circular queue the writer drains. */
  class LoggerState {
    var entries: array<Entry>
    var head: nat
    var tail: nat
    var count: nat
    var running: bool
    var level: Level
    var file: seq<char>
    /** The messages waiting in the queue, oldest first. */
    ghost var queued: seq<seq<char>>

    ghost predicate Valid()
      reads this, entries
    {
      entries.Length == LogQueueSize
      && head < LogQueueSize && tail < LogQueueSize && count <= LogQueueSize
      && tail == (head + count) % LogQueueSize
      && |queued| == count
      && Holds(entries[..], head, queued)
    }

    /** logger_init once the log file is open for appending and the writer
        thread has started. */
    constructor (levelSetting: Option<string>, existing: seq<char>)
      ensures Valid() && fresh(entries)
      ensures level == ParseLevel(levelSetting, Info) && running && file == existing
      ensures head == 0 && tail == 0 && count == 0 && queued == []
    {
      entries := new Entry[LogQueueSize](_ => Entry(None, 0));
      head, tail, count := 0, 0, 0;
      running := true;
      level := ParseLevel(levelSetting, Info);
      file := existing;
      queued := [];
    }

    /** logger_set_level */
    method SetLevel(l: Level)
      requires Valid()
      modifies this`level
      ensures Valid() && level == l
    {
      level := l;
    }

    /** enqueue_log, entered when it would not wait: the queue has room or
        the logger has stopped. A stopped logger drops the message; a
        failed allocation leaves a null message in the tail slot and the
        queue as it was; otherwise a copy goes into the tail slot and the
        tail advances. */
    method Enqueue(message: seq<char>, allocates: bool)
      requires Valid()
      requires count < LogQueueSize || !running
      modifies this, entries
      ensures Valid() && entries == old(entries)
      ensures head == old(head) && running == old(running) && level == old(level) && file == old(file)
      ensures queued == if old(running) && allocates then old(queued) + [message] else old(queued)
      ensures old(running) && allocates ==>
                tail == (old(tail) + 1) % LogQueueSize && count == old(count) + 1
                && entries[..] == old(entries[..])[old(tail) := Entry(Some(message), |message|)]
      ensures !(old(running) && allocates) ==> tail == old(tail) && count == old(count)
      ensures !old(running) ==> entries[..] == old(entries[..])
      ensures old(running) && !allocates ==>
                entries[..] == old(entries[..])[old(tail) := Entry(None, old(entries[tail]).length)]
    {
      if !running {
        return;
      }
      var slot := tail;
      if allocates {
        HoldsPush(entries[..], head, queued, message);
        RingStep(head, count);
        entries[slot] := Entry(Some(message), |message|);
        tail := (tail + 1) % LogQueueSize;
        count := count + 1;
        queued := queued + [message];
      } else {
        HoldsOverwriteFree(entries[..], head, queued, entries[slot].(message := None));
        entries[slot] := entries[slot].(message := None);
      }
    }

    /** The dequeue in log_writer_thread: the entry at head is taken and
        head advances. */
    method Dequeue() returns (e: Entry)
      requires Valid() && count > 0
      modifies this
      ensures Valid()
      ensures e == Entry(Some(old(queued)[0]), |old(queued)[0]|)
      ensures queued == old(queued)[1..]
      ensures head == (old(head) + 1) % LogQueueSize && count == old(count) - 1
      ensures tail == old(tail) && running == old(running) && level == old(level)
      ensures file == old(file) && entries == old(entries)
    {
      HoldsPop(entries[..], head, queued);
      RingStep(head, 0);
      RingStep((head + 1) % LogQueueSize, count - 1);
      e := entries[head];
      head := (head + 1) % LogQueueSize;
      count := count - 1;
      queued := queued[1..];
    }

    /** One pass of log_writer_thread's loop, entered when it would not
        wait (an entry is queued, or the logger has stopped). With nothing
        queued the writer exits; otherwise the oldest message is appended
        to the file. */
    method WriterStep() returns (exit: bool)
      requires Valid() && (count > 0 || !running)
      modifies this
      ensures Valid()
      ensures exit <==> old(count) == 0
      ensures exit ==> file == old(file) && queued == old(queued) && count == 0
      ensures !exit ==> file == old(file) + old(queued)[0] && queued == old(queued)[1..]
      ensures running == old(running) && level == old(level) && entries == old(entries)
    {
      if count == 0 && !running {
        return true;
      }
      var e := Dequeue();
      if e.message.Some? {
        file := file + e.message.value[..e.length];
      }
      exit := false;
    }

    /** log_writer_thread after running has been cleared: it writes out
        what is queued, oldest first, until the queue is empty. */
    method RunWriter()
      requires Valid() && !running
      modifies this
      ensures Valid() && !running && count == 0 && queued == []
      ensures file == old(file) + Flatten(old(queued))
      ensures level == old(level) && entries == old(entries)
    {
      ghost var taken := 0;
      while running || count > 0
        invariant Valid() && !running && level == old(level) && entries == old(entries)
        invariant taken <= |old(queued)| && queued == old(queued)[taken..]
        invariant file == old(file) + Flatten(old(queued)[..taken])
        decreases count
      {
        ghost var m := old(queued)[taken];
        var exit := WriterStep();
        if exit {
          break;
        }
        assert old(queued)[..taken + 1] == old(queued)[..taken] + [m];
        FlattenAppend(old(queued)[..taken], [m]);
        assert Flatten([m]) == m + Flatten([]);
        taken := taken + 1;
      }
      assert old(queued)[..taken] == old(queued);
    }

    /** logger_cleanup: running is cleared, the writer is woken and joined,
        so the file ends with every queued message, oldest first. */
    method Cleanup()
      requires Valid()
      modifies this
      ensures Valid() && !running && count == 0 && queued == []
      ensures file == old(file) + Flatten(old(queued))
      ensures level == old(level) && entries == old(entries)
    {
      running := false;
      RunWriter();
    }

    /** log_message, then enqueue_log: a record below the threshold is
        dropped before it is formatted, so it never waits on a full queue;
        any other is formatted and queued. */
    method Log(l: Level, stamp: string, srcFile: string, line: nat, message: string, allocates: bool)
      requires Valid()
      requires count < LogQueueSize || !running || !Accepts(level, l)
      modifies this, entries
      ensures Valid() && entries == old(entries) && head == old(head)
      ensures running == old(running) && level == old(level) && file == old(file)
      ensures queued == if Accepts(old(level), l) && old(running) && allocates
                        then old(queued) + [BoundedLine(LogText(stamp, l, srcFile, line, message))]
                        else old(queued)
      ensures !Accepts(old(level), l) ==>
                entries[..] == old(entries[..]) && tail == old(tail) && count == old(count)
    {
      if Rank(l) < Rank(level) {
        return;
      }
      var buffer := new char[MaxLogBuffer];
      var length := FormatLine(buffer, stamp, l, srcFile, line, message);
      Enqueue(buffer[..length], allocates);
    }
  }

  // ---------------------------------------------------------------------
  // Scenarios

  /** One call into the queue: an enqueue_log of a message, or one
      dequeue by the writer. */
  datatype QueueOp = Push(message: seq<char>) | Pop

  /** Whether ops run from a queue holding n messages without waiting:
      every pop finds a message and every push finds a free slot. */
  predicate Feasible(ops: seq<QueueOp>, n: nat)
    decreases |ops|
  {
    ops == [] ||
    match ops[0]
    case Pop => n > 0 && Feasible(ops[1..], n - 1)
    case Push(_) => n < LogQueueSize && Feasible(ops[1..], n + 1)
  }

  /** The messages pushed by ops, in order. */
  function Pushed(ops: seq<QueueOp>): seq<seq<char>> {
    if ops == [] then []
    else Pushed(ops[..|ops| - 1]) + (match ops[|ops| - 1] case Push(m) => [m] case Pop => [])
  }

  /** How many pops ops makes. */
  function PopCount(ops: seq<QueueOp>): nat {
    if ops == [] then 0
    else PopCount(ops[..|ops| - 1]) + (if ops[|ops| - 1].Pop? then 1 else 0)
  }

  /** First in, first out: on a running logger, any run of enqueues and
      dequeues that never waits (however often head and tail wrap past
      slot 1023) dequeues exactly the earliest messages enqueued, in the
      order they were enqueued. */
  method Replay(ops: seq<QueueOp>) returns (taken: seq<seq<char>>)
    requires Feasible(ops, 0)
    ensures PopCount(ops) <= |Pushed(ops)| && taken == Pushed(ops)[..PopCount(ops)]
  {
    var logger := new LoggerState(None, []);
    taken := [];
    var i := 0;
    while i < |ops|
      invariant 0 <= i <= |ops|
      invariant logger.Valid() && logger.running && fresh(logger.entries)
      invariant Feasible(ops[i..], logger.count)
      invariant taken + logger.queued == Pushed(ops[..i])
      invariant |taken| == PopCount(ops[..i])
    {
      assert ops[..i + 1][..i] == ops[..i];
      assert ops[i..][1..] == ops[i + 1..];
      match ops[i] {
        case Push(m) =>
          ghost var q := logger.queued;
          logger.Enqueue(m, true);
          assert taken + logger.queued == (taken + q) + [m];
        case Pop =>
          ghost var q := logger.queued;
          var e := logger.Dequeue();
          taken := taken + [e.message.value];
          assert taken + logger.queued == (taken[..|taken| - 1]) + q;
      }
      i := i + 1;
    }
    assert ops[..i] == ops;
    assert taken == (taken + logger.queued)[..|taken|];
  }

  /** Messages queued before shutdown end up in the file after what it
      held, in the order they were queued. */
  method QueueThenCleanup(existing: seq<char>, x: seq<char>, y: seq<char>) returns (contents: seq<char>)
    ensures contents == existing + x + y
  {
    var logger := new LoggerState(None, existing);
    logger.Enqueue(x, true);
    logger.Enqueue(y, true);
    assert logger.queued == [x, y];
    logger.Cleanup();
    contents := logger.file;
    assert Flatten([x, y]) == x + Flatten([y]);
    assert Flatten([y]) == y + Flatten([]);
  }

  /** Under the default INFO threshold a DEBUG record is dropped and a
      WARN record is queued, as its bounded line. */
  method DefaultThreshold(stamp: string, src: string, a: string, b: string) returns (queuedCount: nat, oldest: Entry)
    ensures queuedCount == 1
    ensures oldest == Entry(Some(BoundedLine(LogText(stamp, Warn, src, 8, b))),
                            |BoundedLine(LogText(stamp, Warn, src, 8, b))|)
  {
    var logger := new LoggerState(None, []);
    logger.Log(Debug, stamp, src, 7, a, true);
    logger.Log(Warn, stamp, src, 8, b, true);
    queuedCount := logger.count;
    oldest := logger.Dequeue();
  }

  /** A record below the threshold, logged while the logger runs with a
      full queue, is dropped at once instead of waiting for a free slot. */
  method DiscardWhileFull(logger: LoggerState, stamp: string, src: string, line: nat, message: string)
    requires logger.Valid() && logger.running && logger.count == LogQueueSize && logger.level == Info
    modifies logger, logger.entries
    ensures logger.Valid() && logger.queued == old(logger.queued) && logger.count == LogQueueSize
    ensures logger.file == old(logger.file)
  {
    logger.Log(Debug, stamp, src, line, message, true);
  }
}
