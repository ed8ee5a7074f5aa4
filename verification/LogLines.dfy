/** The log line transducer of include/iop-hal/log.hpp and src/log.cpp: loggers share one global
    state, which decides what each call prints around its message. */
module LogLines {

  datatype LogLevel = TRACE | DEBUG | INFO | WARN | ERROR | CRIT | NO_LOG {
    function Rank(): nat {
      match this
      case TRACE => 0 case DEBUG => 1 case INFO => 2 case WARN => 3 case ERROR => 4 case CRIT => 5 case NO_LOG => 6
    }

    function Name(): string {
      match this
      case TRACE => "TRACE" case DEBUG => "DEBUG" case INFO => "INFO" case WARN => "WARN"
      case ERROR => "ERROR" case CRIT => "CRIT" case NO_LOG => "NO_LOG"
    }
  }

  datatype LogType = START | CONTINUITY | STARTEND | END

  /** One call of the print hook. */
  datatype Event = Print(text: string, level: LogLevel, kind: LogType)

  /** The levels that have logging methods. */
  type CallLevel = l: LogLevel | l != NO_LOG witness INFO

  /** A logging call: `info(msg)` is a piece of a line, `infoln(msg)` its end. */
  datatype Call = Call(target: string, level: CallLevel, msg: string, ln: bool)

  /** `updateState` before a piece, `finalizeState` before the end of a line. */
  function NextState(state: LogType, ln: bool): LogType {
    match state
    case START => if ln then END else CONTINUITY
    case CONTINUITY => if ln then END else CONTINUITY
    case STARTEND => if ln then STARTEND else START
    case END => if ln then STARTEND else START
  }

  predicate Enabled(threshold: LogLevel, c: Call) { threshold.Rank() <= c.level.Rank() }

  function Header(c: Call): seq<Event> {
    [Print("[", c.level, START), Print(c.level.Name(), c.level, CONTINUITY), Print("] ", c.level, CONTINUITY),
     Print(c.target, c.level, CONTINUITY), Print(": ", c.level, CONTINUITY)]
  }

  /** Which levels each threshold lets through. */
  lemma EnabledExactly(c: Call)
    ensures Enabled(TRACE, c)
    ensures Enabled(DEBUG, c) <==> c.level in {DEBUG, INFO, WARN, ERROR, CRIT}
    ensures Enabled(INFO, c) <==> c.level in {INFO, WARN, ERROR, CRIT}
    ensures Enabled(WARN, c) <==> c.level in {WARN, ERROR, CRIT}
    ensures Enabled(ERROR, c) <==> c.level in {ERROR, CRIT}
    ensures Enabled(CRIT, c) <==> c.level == CRIT
    ensures !Enabled(NO_LOG, c)
  {
  }

  function Message(c: Call): seq<Event> { [Print(c.msg, c.level, CONTINUITY)] }

  function NewLine(c: Call): seq<Event> { [Print("\n", c.level, END)] }

  /** What `log` prints. */
  function Logged(threshold: LogLevel, c: Call, logType: LogType, lineTermination: string): seq<Event> {
    if !Enabled(threshold, c) then []
    else
      (if logType == START || logType == STARTEND then Header(c) else [])
      + Message(c)
      + (if logType == END || logType == STARTEND then [Print(lineTermination, c.level, END)]
         else if lineTermination != "" then [Print(lineTermination, c.level, CONTINUITY)]
         else [])
  }

  /** What a call prints, once the state is updated. */
  function Emitted(threshold: LogLevel, state: LogType, c: Call): seq<Event> {
    Logged(threshold, c, state, if c.ln then "\n" else "")
  }

  /** All that a run of calls prints from a state on, and the state after it. */
  function Events(threshold: LogLevel, state: LogType, calls: seq<Call>): seq<Event>
    decreases |calls|
  {
    if calls == [] then []
    else
      var next := NextState(state, calls[0].ln);
      Emitted(threshold, next, calls[0]) + Events(threshold, next, calls[1..])
  }

  function StateAfter(state: LogType, calls: seq<Call>): LogType
    decreases |calls|
  {
    if calls == [] then state else StateAfter(NextState(state, calls[0].ln), calls[1..])
  }

  lemma {:induction false} EventsConcat(threshold: LogLevel, state: LogType, x: seq<Call>, y: seq<Call>)
    ensures Events(threshold, state, x + y)
            == Events(threshold, state, x) + Events(threshold, StateAfter(state, x), y)
    ensures StateAfter(state, x + y) == StateAfter(StateAfter(state, x), y)
    decreases |x|
  {
    hide Emitted, NextState;
    if x == [] {
      assert x + y == y;
    } else {
      assert (x + y)[1..] == x[1..] + y;
      EventsConcat(threshold, NextState(state, x[0].ln), x[1..], y);
    }
  }

  lemma EventsSnoc(threshold: LogLevel, state: LogType, calls: seq<Call>, c: Call)
    ensures var next := NextState(StateAfter(state, calls), c.ln);
            StateAfter(state, calls + [c]) == next
            && Events(threshold, state, calls + [c]) == Events(threshold, state, calls) + Emitted(threshold, next, c)
  {
    EventsConcat(threshold, state, calls, [c]);
    assert [c][1..] == [];
  }

  /** The state and output shared by all loggers; `threshold` is `IOP_LOG_LEVEL`. */
  class LogSystem {
    const threshold: LogLevel
    var state: LogType
    var events: seq<Event>

    /** Every call made so far, by whichever logger. */
    ghost var calls: seq<Call>

    ghost predicate Valid()
      reads this
    {
      state == StateAfter(END, calls) && events == Events(threshold, END, calls)
    }

    constructor (threshold: LogLevel)
      ensures Valid() && calls == [] && this.threshold == threshold
    {
      this.threshold := threshold;
      state, events, calls := END, [], [];
    }

    method UpdateState()
      modifies this`state
      ensures state == NextState(old(state), false)
    {
      match state {
        case START => state := CONTINUITY;
        case CONTINUITY =>
        case STARTEND => state := START;
        case END => state := START;
      }
    }

    method FinalizeState()
      modifies this`state
      ensures state == NextState(old(state), true)
    {
      match state {
        case START => state := END;
        case CONTINUITY => state := END;
        case STARTEND => state := STARTEND;
        case END => state := STARTEND;
      }
    }

    method Output(text: string, level: LogLevel, kind: LogType)
      modifies this`events
      ensures events == old(events) + [Print(text, level, kind)]
    {
      events := events + [Print(text, level, kind)];
    }

    method PrintLogType(target: string, logType: LogType, level: LogLevel)
      modifies this`events
      ensures events == old(events) + if level != NO_LOG && (logType == START || logType == STARTEND)
                                      then Header(Call(target, level, "", false)) else []
    {
      if level == NO_LOG {
        return;
      }
      match logType {
        case CONTINUITY =>
        case END =>
        case START =>
          PrintHeader(target, level);
        case STARTEND =>
          PrintHeader(target, level);
      }
    }

    method PrintHeader(target: string, level: CallLevel)
      modifies this`events
      ensures events == old(events) + Header(Call(target, level, "", false))
    {
      Output("[", level, START);
      Output(level.Name(), level, CONTINUITY);
      Output("] ", level, CONTINUITY);
      Output(target, level, CONTINUITY);
      Output(": ", level, CONTINUITY);
    }

    method Log(target: string, level: CallLevel, msg: string, logType: LogType, lineTermination: string)
      modifies this`events
      ensures events == old(events) + Logged(threshold, Call(target, level, msg, false), logType, lineTermination)
    {
      if threshold.Rank() > level.Rank() {
        return;
      }
      PrintLogType(target, logType, level);
      Output(msg, level, CONTINUITY);
      if logType == END || logType == STARTEND {
        Output(lineTermination, level, END);
      } else if |lineTermination| != 0 {
        Output(lineTermination, level, CONTINUITY);
      }
    }

    /** `trace`, `debug`, `info`, ... */
    method Piece(target: string, level: CallLevel, msg: string)
      requires Valid()
      modifies this
      ensures Valid() && calls == old(calls) + [Call(target, level, msg, false)]
    {
      EventsSnoc(threshold, END, calls, Call(target, level, msg, false));
      UpdateState();
      Log(target, level, msg, state, "");
      calls := calls + [Call(target, level, msg, false)];
    }

    /** `traceln`, `debugln`, `infoln`, ... */
    method Line(target: string, level: CallLevel, msg: string)
      requires Valid()
      modifies this
      ensures Valid() && calls == old(calls) + [Call(target, level, msg, true)]
    {
      EventsSnoc(threshold, END, calls, Call(target, level, msg, true));
      FinalizeState();
      Log(target, level, msg, state, "\n");
      calls := calls + [Call(target, level, msg, true)];
    }
  }

  // ---------- lines ----------

  /** How many calls the first line takes: up to the first end of line, or all of them. */
  function LineLength(calls: seq<Call>): (n: nat)
    ensures n <= |calls| && (calls != [] ==> n > 0)
  {
    if calls == [] then 0 else if calls[0].ln then 1 else 1 + LineLength(calls[1..])
  }

  predicate AnyEnabled(threshold: LogLevel, line: seq<Call>) {
    line != [] && (Enabled(threshold, line[0]) || AnyEnabled(threshold, line[1..]))
  }

  function FirstEnabled(threshold: LogLevel, line: seq<Call>): Call
    requires AnyEnabled(threshold, line)
  {
    if Enabled(threshold, line[0]) then line[0] else FirstEnabled(threshold, line[1..])
  }

  function MessageShown(threshold: LogLevel, c: Call): seq<Event> {
    if Enabled(threshold, c) then Message(c) else []
  }

  function MessagesShown(threshold: LogLevel, line: seq<Call>): seq<Event> {
    if line == [] then [] else MessageShown(threshold, line[0]) + MessagesShown(threshold, line[1..])
  }

  predicate IsEnded(line: seq<Call>) { line != [] && line[|line| - 1].ln }

  /** The frame that the enabled calls of a line should make: one header, every enabled message in
      order, and the newline if the line is ended. */
  function Frame(threshold: LogLevel, line: seq<Call>): seq<Event> {
    if !AnyEnabled(threshold, line) then []
    else
      Header(FirstEnabled(threshold, line))
      + MessagesShown(threshold, line)
      + (if IsEnded(line) then NewLine(line[|line| - 1]) else [])
  }

  /** The output as it should be: the frames of the lines, one after the other. */
  function Frames(threshold: LogLevel, calls: seq<Call>): seq<Event> {
    if calls == [] then []
    else
      var n := LineLength(calls);
      Frame(threshold, calls[..n]) + Frames(threshold, calls[n..])
  }

  /** A line of which anything is shown has its first call and, if it is ended, its last call shown. */
  predicate ProperLine(threshold: LogLevel, line: seq<Call>) {
    AnyEnabled(threshold, line) ==>
      Enabled(threshold, line[0]) && (IsEnded(line) ==> Enabled(threshold, line[|line| - 1]))
  }

  predicate ProperLines(threshold: LogLevel, calls: seq<Call>) {
    calls == []
    || (ProperLine(threshold, calls[..LineLength(calls)]) && ProperLines(threshold, calls[LineLength(calls)..]))
  }

  // ---------- what is printed, line by line ----------

  predicate IsLine(line: seq<Call>) { forall i :: 0 <= i < |line| - 1 ==> !line[i].ln }

  predicate LineOpen(state: LogType) { state == START || state == CONTINUITY }

  function HeaderShown(threshold: LogLevel, c: Call): seq<Event> {
    if Enabled(threshold, c) then Header(c) else []
  }

  function NewLineShown(threshold: LogLevel, c: Call): seq<Event> {
    if c.ln && Enabled(threshold, c) then NewLine(c) else []
  }

  lemma EmittedParts(threshold: LogLevel, state: LogType, c: Call)
    ensures Emitted(threshold, NextState(state, c.ln), c)
            == (if LineOpen(state) then [] else HeaderShown(threshold, c))
               + MessageShown(threshold, c) + NewLineShown(threshold, c)
    ensures LineOpen(NextState(state, c.ln)) <==> !c.ln
  {
    hide Header;
  }

  lemma EventsFirst(threshold: LogLevel, state: LogType, calls: seq<Call>)
    requires calls != []
    ensures var next := NextState(state, calls[0].ln);
            Events(threshold, state, calls)
            == (if LineOpen(state) then [] else HeaderShown(threshold, calls[0])) + MessageShown(threshold, calls[0])
               + NewLineShown(threshold, calls[0]) + Events(threshold, next, calls[1..])
  {
    EmittedParts(threshold, state, calls[0]);
    hide Emitted, NextState, HeaderShown, MessageShown, NewLineShown;
  }

  lemma {:induction false} FirstLine(calls: seq<Call>)
    ensures var n := LineLength(calls);
            IsLine(calls[..n]) && (n < |calls| ==> IsEnded(calls[..n]))
  {
    if calls != [] && !calls[0].ln {
      FirstLine(calls[1..]);
      var n := LineLength(calls[1..]);
      assert calls[..n + 1] == [calls[0]] + calls[1..][..n];
    }
  }

  lemma MessagesFirst(threshold: LogLevel, line: seq<Call>)
    requires line != []
    ensures MessagesShown(threshold, line) == MessageShown(threshold, line[0]) + MessagesShown(threshold, line[1..])
    ensures |line| == 1 ==> MessagesShown(threshold, line) == MessageShown(threshold, line[0])
  {
  }

  lemma Regroup<T>(h: seq<T>, m: seq<T>, r: seq<T>, n: seq<T>)
    ensures h + m + [] + ([] + r + n) == h + (m + r) + n
  {
  }

  lemma NothingLeft(threshold: LogLevel, state: LogType, calls: seq<Call>)
    requires calls == []
    ensures Events(threshold, state, calls) == Frames(threshold, calls) == [] && ProperLines(threshold, calls)
    ensures StateAfter(state, calls) == state
  {
  }

  /** A line, or what is left of one, prints its header if it starts here and its first call is
      enabled, every enabled message, and the newline if its last call is enabled. */
  lemma {:induction false} WholeLine(threshold: LogLevel, state: LogType, line: seq<Call>)
    requires line != [] && IsLine(line)
    ensures Events(threshold, state, line)
            == (if LineOpen(state) then [] else HeaderShown(threshold, line[0]))
               + MessagesShown(threshold, line) + NewLineShown(threshold, line[|line| - 1])
    ensures LineOpen(StateAfter(state, line)) <==> !IsEnded(line)
    decreases |line|
  {
    var c, rest, next := line[0], line[1..], NextState(state, line[0].ln);
    EventsFirst(threshold, state, line);
    EmittedParts(threshold, state, c);
    MessagesFirst(threshold, line);
    assert StateAfter(state, line) == StateAfter(next, rest);
    hide Events, StateAfter, HeaderShown, MessageShown, MessagesShown, NextState;
    if |line| == 1 {
      NothingLeft(threshold, next, rest);
      hide NewLineShown;
    } else {
      WholeLine(threshold, next, rest);
      assert NewLineShown(threshold, c) == [];
      hide NewLineShown;
      Regroup(if LineOpen(state) then [] else HeaderShown(threshold, c), MessageShown(threshold, c),
              MessagesShown(threshold, rest), NewLineShown(threshold, line[|line| - 1]));
    }
  }

  lemma {:induction false} FirstKind(threshold: LogLevel, state: LogType, calls: seq<Call>)
    ensures var e := Events(threshold, state, calls); e != [] ==> e[0].kind != END
    decreases |calls|
  {
    if calls != [] {
      FirstKind(threshold, NextState(state, calls[0].ln), calls[1..]);
    }
  }

  lemma {:induction false} MessagesKind(threshold: LogLevel, line: seq<Call>)
    ensures AnyEnabled(threshold, line) <==> MessagesShown(threshold, line) != []
    ensures line != [] && Enabled(threshold, line[|line| - 1]) ==> AnyEnabled(threshold, line)
    ensures forall i :: 0 <= i < |MessagesShown(threshold, line)| ==>
                          MessagesShown(threshold, line)[i].kind == CONTINUITY
  {
    if line != [] {
      MessagesKind(threshold, line[1..]);
    }
  }

  lemma ProperPrintsFrame(threshold: LogLevel, state: LogType, line: seq<Call>)
    requires !LineOpen(state) && line != [] && IsLine(line) && ProperLine(threshold, line)
    ensures Events(threshold, state, line) == Frame(threshold, line)
  {
    WholeLine(threshold, state, line);
    MessagesKind(threshold, line);
    hide Events, StateAfter, Header, NewLine, Enabled;
    if AnyEnabled(threshold, line) {
      assert FirstEnabled(threshold, line) == line[0];
    }
  }

  /** A line that starts filtered prints no START first; one that ends filtered has no END behind its
      messages, and what comes after does not start with one. */
  lemma FrameNeedsProper(threshold: LogLevel, state: LogType, line: seq<Call>, after: seq<Event>, after': seq<Event>)
    requires !LineOpen(state) && line != [] && IsLine(line) && !ProperLine(threshold, line)
    requires after != [] ==> after[0].kind != END
    ensures Events(threshold, state, line) + after != Frame(threshold, line) + after'
  {
    WholeLine(threshold, state, line);
    MessagesKind(threshold, line);
    hide Events, StateAfter, Enabled;
    var printed, m := Events(threshold, state, line), MessagesShown(threshold, line);
    if !Enabled(threshold, line[0]) {
      assert (printed + after)[0].kind == CONTINUITY;
      assert (Frame(threshold, line) + after')[0].kind == START;
    } else {
      var front := Header(line[0]) + m;
      assert printed + after == front + after;
      assert (Frame(threshold, line) + after')[|front|].kind == END;
    }
  }

  /** A line prints its frame, whatever comes after, exactly when it is proper. */
  lemma LineVersusFrame(threshold: LogLevel, state: LogType, line: seq<Call>, after: seq<Event>, after': seq<Event>)
    requires !LineOpen(state) && line != [] && IsLine(line)
    requires after != [] ==> after[0].kind != END
    ensures ProperLine(threshold, line) ==> Events(threshold, state, line) == Frame(threshold, line)
    ensures Events(threshold, state, line) + after == Frame(threshold, line) + after' ==> ProperLine(threshold, line)
  {
    hide Events, Frame, ProperLine;
    if ProperLine(threshold, line) {
      ProperPrintsFrame(threshold, state, line);
    } else {
      FrameNeedsProper(threshold, state, line, after, after');
    }
  }

  lemma CancelFront<T>(x: seq<T>, y: seq<T>, z: seq<T>)
    ensures x + y == x + z <==> y == z
  {
    assert (x + y)[|x|..] == y && (x + z)[|x|..] == z;
  }

  /** The output is the frames of the lines exactly when every line is proper.  A line that starts
      filtered and goes on enabled prints text before any header; one that starts enabled and ends
      filtered leaves its frame open under the next line. */
  lemma {:induction false} FramesExactly(threshold: LogLevel, state: LogType, calls: seq<Call>)
    requires !LineOpen(state)
    ensures Events(threshold, state, calls) == Frames(threshold, calls) <==> ProperLines(threshold, calls)
    decreases |calls|
  {
    if calls != [] {
      var n := LineLength(calls);
      var line, rest := calls[..n], calls[n..];
      var state' := StateAfter(state, line);
      assert calls == line + rest;
      FirstLine(calls);
      EventsConcat(threshold, state, line, rest);
      WholeLine(threshold, state, line);
      FirstKind(threshold, state', rest);
      LineVersusFrame(threshold, state, line, Events(threshold, state', rest), Frames(threshold, rest));
      if rest != [] {
        FramesExactly(threshold, state', rest);
      } else {
        NothingLeft(threshold, state', rest);
      }
      CancelFront(Events(threshold, state, line), Events(threshold, state', rest), Frames(threshold, rest));
      hide Events, StateAfter, Frame, ProperLine, LineLength;
    }
  }

  /** A line whose first call is filtered: its text is printed without a header. */
  lemma HeaderLost(target: string)
    ensures Events(INFO, END, [Call(target, DEBUG, "x", false), Call(target, INFO, "y", true)])
            == [Print("y", INFO, CONTINUITY), Print("\n", INFO, END)]
  {
    var first, second := Call(target, DEBUG, "x", false), Call(target, INFO, "y", true);
    assert [first, second][1..] == [second] && [second][1..] == [];
    assert Events(INFO, START, [second]) == Emitted(INFO, END, second);
  }

  /** A line whose last call is filtered: the next line starts before it is ended. */
  lemma NewLineLost(target: string)
    ensures Events(INFO, END, [Call(target, INFO, "x", false), Call(target, DEBUG, "y", true)])
            == Header(Call(target, INFO, "x", false)) + [Print("x", INFO, CONTINUITY)]
  {
    var first, second := Call(target, INFO, "x", false), Call(target, DEBUG, "y", true);
    assert [first, second][1..] == [second] && [second][1..] == [];
    assert Events(INFO, START, [second]) == [];
    assert Emitted(INFO, START, first) == Header(first) + [Print("x", INFO, CONTINUITY)];
  }

  // ---------- what a reader of the output sees ----------

  /** A reader of the events: between lines, after a START, after a CONTINUITY, or lost. */
  datatype Reader = Between | Started | Inside | Lost

  function ReadOne(r: Reader, e: Event): Reader {
    match (r, e.kind)
    case (Between, START) => Started
    case (Started, CONTINUITY) => Inside
    case (Inside, CONTINUITY) => Inside
    case (Inside, END) => Between
    case _ => Lost
  }

  function Read(r: Reader, events: seq<Event>): Reader
    decreases |events|
  {
    if events == [] then r else Read(ReadOne(r, events[0]), events[1..])
  }

  function TextOf(events: seq<Event>): string {
    if events == [] then "" else events[0].text + TextOf(events[1..])
  }

  /** All the calls of a line are enabled, or all are filtered out. */
  predicate UniformLine(threshold: LogLevel, line: seq<Call>) {
    (forall i :: 0 <= i < |line| ==> Enabled(threshold, line[i]))
    || (forall i :: 0 <= i < |line| ==> !Enabled(threshold, line[i]))
  }

  predicate UniformLines(threshold: LogLevel, calls: seq<Call>) {
    calls == []
    || (UniformLine(threshold, calls[..LineLength(calls)]) && UniformLines(threshold, calls[LineLength(calls)..]))
  }

  function Joined(line: seq<Call>): string {
    if line == [] then "" else line[0].msg + Joined(line[1..])
  }

  lemma {:induction false} ReadConcat(r: Reader, x: seq<Event>, y: seq<Event>)
    ensures Read(r, x + y) == Read(Read(r, x), y)
    decreases |x|
  {
    if x == [] {
      assert x + y == y;
    } else {
      assert (x + y)[1..] == x[1..] + y;
      ReadConcat(ReadOne(r, x[0]), x[1..], y);
    }
  }

  lemma {:induction false} TextConcat(x: seq<Event>, y: seq<Event>)
    ensures TextOf(x + y) == TextOf(x) + TextOf(y)
  {
    if x == [] {
      assert x + y == y;
    } else {
      assert (x + y)[1..] == x[1..] + y;
      TextConcat(x[1..], y);
    }
  }

  lemma {:induction false} ReadMessages(threshold: LogLevel, r: Reader, line: seq<Call>)
    requires r == Started || r == Inside
    ensures Read(r, MessagesShown(threshold, line)) == if AnyEnabled(threshold, line) then Inside else r
    decreases |line|
  {
    if line != [] {
      var first := MessageShown(threshold, line[0]);
      ReadConcat(r, first, MessagesShown(threshold, line[1..]));
      assert Read(r, first) == if Enabled(threshold, line[0]) then Inside else r;
      ReadMessages(threshold, Read(r, first), line[1..]);
    }
  }

  lemma ReadCons(r: Reader, e: Event, rest: seq<Event>)
    ensures Read(r, [e] + rest) == Read(ReadOne(r, e), rest)
    ensures TextOf([e] + rest) == e.text + TextOf(rest)
    ensures rest == [] ==> Read(r, rest) == r && TextOf(rest) == ""
  {
    assert ([e] + rest)[1..] == rest;
  }

  lemma ReadHeader(c: Call)
    ensures Read(Between, Header(c)) == Inside
    ensures TextOf(Header(c)) == "[" + c.level.Name() + "] " + c.target + ": "
  {
    var h, text := Header(c), "[" + c.level.Name() + "] " + c.target + ": ";
    ReadCons(Inside, h[4], []);
    ReadCons(Inside, h[3], [h[4]]);
    ReadCons(Inside, h[2], [h[3], h[4]]);
    ReadCons(Started, h[1], [h[2], h[3], h[4]]);
    ReadCons(Between, h[0], [h[1], h[2], h[3], h[4]]);
    hide Read, TextOf;
    assert TextOf(h) == "[" + (c.level.Name() + ("] " + (c.target + (": " + TextOf([])))));
    assert text == "[" + (c.level.Name() + ("] " + (c.target + (": " + ""))));
  }

  lemma LevelNames(level: CallLevel)
    ensures "[" + level.Name() + "] " == match level
                                         case TRACE => "[TRACE] "
                                         case DEBUG => "[DEBUG] "
                                         case INFO => "[INFO] "
                                         case WARN => "[WARN] "
                                         case ERROR => "[ERROR] "
                                         case CRIT => "[CRIT] "
  {
  }

  /** The text of a header, for each level. */
  lemma HeaderText(c: Call)
    ensures TextOf(Header(c)) == (match c.level
                                  case TRACE => "[TRACE] "
                                  case DEBUG => "[DEBUG] "
                                  case INFO => "[INFO] "
                                  case WARN => "[WARN] "
                                  case ERROR => "[ERROR] "
                                  case CRIT => "[CRIT] ") + c.target + ": "
  {
    ReadHeader(c);
    hide Header, TextOf;
    LevelNames(c.level);
  }

  /** All that a call prints has its level. */
  lemma LevelKept(threshold: LogLevel, state: LogType, c: Call)
    ensures forall i :: 0 <= i < |Emitted(threshold, state, c)| ==> Emitted(threshold, state, c)[i].level == c.level
  {
  }

  /** A whole line by one call, event by event. */
  lemma WarningPrinted(target: string)
    ensures Events(INFO, END, [Call(target, WARN, "x", true)])
            == [Print("[", WARN, START), Print("WARN", WARN, CONTINUITY), Print("] ", WARN, CONTINUITY),
                Print(target, WARN, CONTINUITY), Print(": ", WARN, CONTINUITY), Print("x", WARN, CONTINUITY),
                Print("\n", WARN, END)]
  {
    var c := Call(target, WARN, "x", true);
    assert [c][1..] == [];
    assert Events(INFO, END, [c]) == Emitted(INFO, STARTEND, c);
  }

  /** A frame reads as one line: closed if the line is ended, open otherwise. */
  lemma ReadFrame(threshold: LogLevel, line: seq<Call>)
    ensures Read(Between, Frame(threshold, line))
            == if AnyEnabled(threshold, line) && !IsEnded(line) then Inside else Between
  {
    if AnyEnabled(threshold, line) {
      var h, m := Header(FirstEnabled(threshold, line)), MessagesShown(threshold, line);
      var e := if IsEnded(line) then NewLine(line[|line| - 1]) else [];
      ReadHeader(FirstEnabled(threshold, line));
      hide Header;
      ReadMessages(threshold, Inside, line);
      ReadConcat(Between, h + m, e);
      ReadConcat(Between, h, m);
    }
  }

  lemma {:induction false} ReadFrames(threshold: LogLevel, calls: seq<Call>)
    ensures Read(Between, Frames(threshold, calls)) in {Between, Inside}
    ensures IsEnded(calls) ==> Read(Between, Frames(threshold, calls)) == Between
    decreases |calls|
  {
    hide Frame, AnyEnabled, IsLine;
    if calls != [] {
      var n := LineLength(calls);
      FirstLine(calls);
      ReadFrame(threshold, calls[..n]);
      ReadConcat(Between, Frame(threshold, calls[..n]), Frames(threshold, calls[n..]));
      ReadFrames(threshold, calls[n..]);
    }
  }

  lemma {:induction false} FilteredLine(threshold: LogLevel, line: seq<Call>)
    ensures AnyEnabled(threshold, line) <==> exists i :: 0 <= i < |line| && Enabled(threshold, line[i])
  {
    if line != [] {
      FilteredLine(threshold, line[1..]);
      if AnyEnabled(threshold, line[1..]) {
        var i :| 0 <= i < |line[1..]| && Enabled(threshold, line[1..][i]);
        assert Enabled(threshold, line[i + 1]);
      }
      if i :| 0 < i < |line| && Enabled(threshold, line[i]) {
        assert line[1..][i - 1] == line[i];
      }
    }
  }

  lemma {:induction false} UniformIsProper(threshold: LogLevel, calls: seq<Call>)
    requires UniformLines(threshold, calls)
    ensures ProperLines(threshold, calls)
    decreases |calls|
  {
    if calls != [] {
      FilteredLine(threshold, calls[..LineLength(calls)]);
      UniformIsProper(threshold, calls[LineLength(calls)..]);
    }
  }

  lemma {:induction false} MessagesText(threshold: LogLevel, line: seq<Call>)
    requires forall i :: 0 <= i < |line| ==> Enabled(threshold, line[i])
    ensures TextOf(MessagesShown(threshold, line)) == Joined(line)
  {
    if line != [] {
      MessagesText(threshold, line[1..]);
      TextConcat(Message(line[0]), MessagesShown(threshold, line[1..]));
      assert Message(line[0])[1..] == [];
    }
  }

  /** The text of a line whose calls are all enabled. */
  lemma LineText(threshold: LogLevel, line: seq<Call>)
    requires line != [] && forall i :: 0 <= i < |line| ==> Enabled(threshold, line[i])
    ensures TextOf(Frame(threshold, line))
            == "[" + line[0].level.Name() + "] " + line[0].target + ": " + Joined(line)
               + (if IsEnded(line) then "\n" else "")
  {
    var h, m := Header(line[0]), MessagesShown(threshold, line);
    var e := if IsEnded(line) then NewLine(line[|line| - 1]) else [];
    assert TextOf(e) == if IsEnded(line) then "\n" else "";
    MessagesText(threshold, line);
    ReadHeader(line[0]);
    hide Header, TextOf, MessagesShown, Joined;
    assert Enabled(threshold, line[0]);
    hide Enabled;
    assert Frame(threshold, line) == h + m + e;
    TextConcat(h + m, e);
    TextConcat(h, m);
    hide Frame, AnyEnabled, FirstEnabled;
  }

  /** Whatever loggers make the calls, and in whatever order: if the calls of each line are all enabled
      or all filtered out, the output is the frames of the lines and no reader is ever lost. */
  lemma RunReadsAsLines(threshold: LogLevel, calls: seq<Call>)
    requires UniformLines(threshold, calls)
    ensures Events(threshold, END, calls) == Frames(threshold, calls)
    ensures Read(Between, Events(threshold, END, calls)) in {Between, Inside}
    ensures IsEnded(calls) ==> Read(Between, Events(threshold, END, calls)) == Between
  {
    UniformIsProper(threshold, calls);
    FramesExactly(threshold, END, calls);
    ReadFrames(threshold, calls);
  }
}
