/** The assistant's command loop: each input line is stripped, skipped when
    empty, checked for an exit keyword before anything else, and otherwise
    routed on the classifier's intent label under the session's access mode,
    which is fixed before the loop starts. The classifier is a parameter
    (`intent`), and the clock value at which each line is handled is given
    alongside the lines. */
module FridayCore {
  import opened Text
  import opened AccessMode
  import opened LongTermMemory

  const ExitKeywords: seq<string> := ["exit", "quit", "stop", "bye", "goodbye", "shutdown"]

  const GoodbyeReply := "Goodbye. Have a great day."
  const ChatReply := "I'm here with you. How can I help?"
  const SystemRestrictedReply := "System access is restricted to my owner."
  const SystemDisabledReply := "System command recognized (execution disabled in demo)."
  const UnknownIntentReply := "I'm not sure how to handle that."

  /** `is_exit_command`: some exit keyword occurs anywhere in the lowercased text. */
  predicate IsExitCommand(text: string)
    ensures IsExitCommand(text) <==> exists k :: k in ExitKeywords && Contains(Lower(text), k)
  {
    ContainsAny(Lower(text), ExitKeywords)
  }

  /** The test is a plain substring test: an exit keyword anywhere in the
      text, even inside a longer word, makes it an exit command. */
  lemma ExitKeywordAnywhere(a: string, k: string, b: string)
    requires k in ExitKeywords
    ensures IsExitCommand(a + k + b)
  {
    assert forall i :: 0 <= i < |k| ==> 'a' <= k[i] <= 'z';
    LowerIdentity(k);
    LowerConcat(a + k, b);
    LowerConcat(a, k);
    ContainsMiddle(Lower(a), k, Lower(b));
  }

  datatype StepOutcome = Skipped | Replied(reply: string) | Ended(farewell: string)

  datatype StepResult = StepResult(outcome: StepOutcome, table: MemoryTable)

  /** The routing on the intent label, for a non-blank, non-exit input:
      only an OWNER store can change the table, and then only by appending. */
  function Dispatch(t: MemoryTable, userInput: string, now: int, accessMode: string, predicted: string): (r: StepResult)
    ensures r.outcome.Replied?
    ensures r.table == t || (accessMode == Owner && predicted == "memory_store")
    ensures t.rows <= r.table.rows
  {
    if predicted == "chat" then StepResult(Replied(ChatReply), t)
    else if predicted == "memory_store" then
      StepResult(Replied(StoreReply(DecideStore(userInput, accessMode))), StoreEffect(t, userInput, accessMode, now))
    else if predicted == "memory_recall" then
      StepResult(Replied(RecallText(t.rows, accessMode, DefaultRecallLimit)), t)
    else if predicted == "system_command" then
      StepResult(Replied(if accessMode != Owner then SystemRestrictedReply else SystemDisabledReply), t)
    else StepResult(Replied(UnknownIntentReply), t)
  }

  /** What one input line does, given the table before it: a blank line is
      skipped and an exit line ends the session, both without asking the
      classifier; anything else is routed on its intent label. */
  function Step(t: MemoryTable, line: string, now: int, accessMode: string, intent: string -> string): StepResult {
    var userInput := Strip(line);
    if userInput == "" then StepResult(Skipped, t)
    else if IsExitCommand(userInput) then StepResult(Ended(GoodbyeReply), t)
    else Dispatch(t, userInput, now, accessMode, intent(userInput))
  }

  /** A blank line is skipped and an exit line ends the session with the
      farewell; the session never ends any other way. Neither touches the table. */
  lemma StepBlankOrExit(t: MemoryTable, line: string, now: int, accessMode: string, intent: string -> string)
    ensures var r := Step(t, line, now, accessMode, intent);
      && (Strip(line) == "" ==> r == StepResult(Skipped, t))
      && (Strip(line) != "" && IsExitCommand(Strip(line)) ==> r == StepResult(Ended(GoodbyeReply), t))
      && (r.outcome.Ended? ==> r.outcome.farewell == GoodbyeReply && IsExitCommand(Strip(line)))
  {
  }

  /** Only an OWNER line classified as a store can change the table, and a
      step never removes or alters a stored row. */
  lemma StepOnlyStoreWrites(t: MemoryTable, line: string, now: int, accessMode: string, intent: string -> string)
    ensures var r := Step(t, line, now, accessMode, intent);
      && (r.table == t || (accessMode == Owner && intent(Strip(line)) == "memory_store"))
      && t.rows <= r.table.rows
  {
  }

  /** One step keeps the table well formed. */
  lemma StepKeepsWellFormed(t: MemoryTable, line: string, now: int, accessMode: string, intent: string -> string)
    requires WellFormed(t)
    ensures WellFormed(Step(t, line, now, accessMode, intent).table)
  {
    var userInput := Strip(line);
    if userInput != "" && !IsExitCommand(userInput) {
      DispatchKeepsWellFormed(t, userInput, now, accessMode, intent(userInput));
    }
  }

  lemma DispatchKeepsWellFormed(t: MemoryTable, userInput: string, now: int, accessMode: string, predicted: string)
    requires WellFormed(t)
    ensures WellFormed(Dispatch(t, userInput, now, accessMode, predicted).table)
  {
    if predicted == "memory_store" {
      StoreKeepsWellFormed(t, userInput, accessMode, now);
    }
  }

  /** The store and recall intents hand the stripped line and the session's
      access mode, unchanged, to the memory; recall uses the default limit. */
  lemma StepForwardsToMemory(t: MemoryTable, line: string, now: int, accessMode: string, intent: string -> string)
    requires Strip(line) != "" && !IsExitCommand(Strip(line))
    ensures intent(Strip(line)) == "memory_store" ==>
      Step(t, line, now, accessMode, intent) == StepResult(
        Replied(StoreReply(DecideStore(Strip(line), accessMode))), StoreEffect(t, Strip(line), accessMode, now))
    ensures intent(Strip(line)) == "memory_recall" ==>
      Step(t, line, now, accessMode, intent) ==
        StepResult(Replied(RecallText(t.rows, accessMode, DefaultRecallLimit)), t)
  {
  }

  /** The chat, system-command and fallback intents answer with fixed text,
      never run anything, and leave the memory alone. */
  lemma StepFixedReplies(t: MemoryTable, line: string, now: int, accessMode: string, intent: string -> string)
    requires Strip(line) != "" && !IsExitCommand(Strip(line))
    requires intent(Strip(line)) != "memory_store" && intent(Strip(line)) != "memory_recall"
    ensures var r := Step(t, line, now, accessMode, intent);
      var predicted := intent(Strip(line));
      && r.table == t
      && (predicted == "chat" ==> r.outcome == Replied(ChatReply))
      && (predicted == "system_command" && accessMode != Owner ==> r.outcome == Replied(SystemRestrictedReply))
      && (predicted == "system_command" && accessMode == Owner ==> r.outcome == Replied(SystemDisabledReply))
      && (predicted != "chat" && predicted != "system_command" ==> r.outcome == Replied(UnknownIntentReply))
  {
  }

  /** Blank lines and exit lines are settled before the classifier is asked:
      any two classifiers give the same result for them. */
  lemma ExitAndBlankIgnoreIntent(
    t: MemoryTable, line: string, now: int, accessMode: string, intent1: string -> string, intent2: string -> string)
    requires Strip(line) == "" || IsExitCommand(Strip(line))
    ensures Step(t, line, now, accessMode, intent1) == Step(t, line, now, accessMode, intent2)
  {
  }

  datatype SessionResult = SessionResult(replies: seq<string>, ended: bool, table: MemoryTable)

  /** A handler for one input line: the table before it and the clock value
      in, the outcome and the table after it out. */
  type LineHandler = (MemoryTable, string, int) -> StepResult

  /** The loop of `main` over `lines` with handler `step`, the line at index
      i handled at clock value `clock[i]`: the replies printed, whether an
      exit ended the loop, and the table afterwards. */
  function Run(t: MemoryTable, lines: seq<string>, clock: seq<int>, step: LineHandler): SessionResult
    requires |clock| == |lines|
    decreases |lines|
  {
    if lines == [] then SessionResult([], false, t)
    else
      var s := step(t, lines[0], clock[0]);
      match s.outcome
      case Skipped => Run(s.table, lines[1..], clock[1..], step)
      case Ended(farewell) => SessionResult([farewell], true, s.table)
      case Replied(reply) =>
        var rest := Run(s.table, lines[1..], clock[1..], step);
        SessionResult([reply] + rest.replies, rest.ended, rest.table)
  }

  /** `main`'s own handler: `Step` under a fixed access mode and classifier. */
  function Handler(accessMode: string, intent: string -> string): LineHandler {
    (t: MemoryTable, line: string, now: int) => Step(t, line, now, accessMode, intent)
  }

  /** The session `main` runs once authentication has fixed `accessMode`. */
  function Session(
    t: MemoryTable, lines: seq<string>, clock: seq<int>, accessMode: string, intent: string -> string): SessionResult
    requires |clock| == |lines|
  {
    Run(t, lines, clock, Handler(accessMode, intent))
  }

  // ---------------------------------------------------------------------------
  // The loop, for any handler
  // ---------------------------------------------------------------------------

  /** One more line of the loop: if `whole` is `replies` followed by the run
      from line i on, then it is the replies so far, this line's reply, and the
      run from line i + 1 on, or it ends here when this line ends the loop. */
  lemma RunAdvance(
    whole: SessionResult, replies: seq<string>, t: MemoryTable, lines: seq<string>, clock: seq<int>,
    i: nat, step: LineHandler, s: StepResult)
    requires |clock| == |lines| && i < |lines| && s == step(t, lines[i], clock[i])
    requires var here := Run(t, lines[i..], clock[i..], step);
      whole == SessionResult(replies + here.replies, here.ended, here.table)
    ensures var rest := Run(s.table, lines[i + 1..], clock[i + 1..], step);
      && (s.outcome.Skipped? ==> whole == SessionResult(replies + rest.replies, rest.ended, rest.table))
      && (s.outcome.Replied? ==>
            whole == SessionResult(replies + [s.outcome.reply] + rest.replies, rest.ended, rest.table))
      && (s.outcome.Ended? ==> whole == SessionResult(replies + [s.outcome.farewell], true, s.table))
  {
    assert lines[i..][0] == lines[i] && clock[i..][0] == clock[i];
    assert lines[i..][1..] == lines[i + 1..] && clock[i..][1..] == clock[i + 1..];
    var rest := Run(s.table, lines[i + 1..], clock[i + 1..], step);
    if s.outcome.Replied? {
      assert (replies + [s.outcome.reply]) + rest.replies == replies + ([s.outcome.reply] + rest.replies);
    }
  }

  /** Each line yields at most one reply. */
  lemma {:induction false} RunRepliesPerLine(t: MemoryTable, lines: seq<string>, clock: seq<int>, step: LineHandler)
    requires |clock| == |lines|
    ensures |Run(t, lines, clock, step).replies| <= |lines|
    decreases |lines|
  {
    if lines != [] {
      RunRepliesPerLine(step(t, lines[0], clock[0]).table, lines[1..], clock[1..], step);
    }
  }

  /** A handler that never writes gives a loop that never writes. */
  lemma {:induction false} RunKeepsTable(t: MemoryTable, lines: seq<string>, clock: seq<int>, step: LineHandler)
    requires |clock| == |lines|
    requires forall u, l, n :: step(u, l, n).table == u
    ensures Run(t, lines, clock, step).table == t
    decreases |lines|
  {
    if lines != [] {
      var l, n := lines[0], clock[0];
      assert step(t, l, n).table == t;
      RunKeepsTable(t, lines[1..], clock[1..], step);
    }
  }

  /** A handler whose outcome is a function `outcome` of the line and the
      clock alone gives a loop whose replies do not depend on the table. */
  lemma {:induction false} RunIgnoresTable(
    t1: MemoryTable, t2: MemoryTable, lines: seq<string>, clock: seq<int>, step: LineHandler,
    outcome: (string, int) -> StepOutcome)
    requires |clock| == |lines|
    requires forall u, l, n :: step(u, l, n).outcome == outcome(l, n)
    ensures Run(t1, lines, clock, step).replies == Run(t2, lines, clock, step).replies
    ensures Run(t1, lines, clock, step).ended == Run(t2, lines, clock, step).ended
    decreases |lines|
  {
    if lines != [] {
      var l, n := lines[0], clock[0];
      var s1, s2 := step(t1, l, n), step(t2, l, n);
      assert s1.outcome == outcome(l, n) == s2.outcome;
      RunIgnoresTable(s1.table, s2.table, lines[1..], clock[1..], step, outcome);
    }
  }

  /** Every reply the loop prints is one the handler can give. */
  lemma {:induction false} RunRepliesFrom(
    t: MemoryTable, lines: seq<string>, clock: seq<int>, step: LineHandler, allowed: set<string>)
    requires |clock| == |lines|
    requires forall u, l, n :: step(u, l, n).outcome.Replied? ==> step(u, l, n).outcome.reply in allowed
    requires forall u, l, n :: step(u, l, n).outcome.Ended? ==> step(u, l, n).outcome.farewell in allowed
    ensures forall i :: 0 <= i < |Run(t, lines, clock, step).replies| ==> Run(t, lines, clock, step).replies[i] in allowed
    decreases |lines|
  {
    if lines != [] {
      var l, n := lines[0], clock[0];
      var s := step(t, l, n);
      assert s.outcome.Replied? ==> s.outcome.reply in allowed;
      assert s.outcome.Ended? ==> s.outcome.farewell in allowed;
      RunRepliesFrom(s.table, lines[1..], clock[1..], step, allowed);
    }
  }

  /** A handler that only appends rows and keeps the table well formed gives
      a loop that does the same. */
  lemma {:induction false} RunAppendOnly(t: MemoryTable, lines: seq<string>, clock: seq<int>, step: LineHandler)
    requires |clock| == |lines|
    requires forall u: MemoryTable, l, n :: u.rows <= step(u, l, n).table.rows
    requires forall u, l, n :: WellFormed(u) ==> WellFormed(step(u, l, n).table)
    ensures t.rows <= Run(t, lines, clock, step).table.rows
    ensures WellFormed(t) ==> WellFormed(Run(t, lines, clock, step).table)
    decreases |lines|
  {
    if lines != [] {
      var l, n := lines[0], clock[0];
      var s := step(t, l, n);
      assert t.rows <= s.table.rows;
      assert WellFormed(t) ==> WellFormed(s.table);
      RunAppendOnly(s.table, lines[1..], clock[1..], step);
    }
  }

  /** Once the loop has ended, later lines are never read, and the last
      reply is the farewell, when every ending step gives the same one. */
  lemma {:induction false} RunStopsAtEnd(
    t: MemoryTable, lines: seq<string>, clock: seq<int>, more: seq<string>, moreClock: seq<int>,
    step: LineHandler, farewell: string)
    requires |clock| == |lines| && |moreClock| == |more|
    requires forall u, l, n :: step(u, l, n).outcome.Ended? ==> step(u, l, n).outcome.farewell == farewell
    requires Run(t, lines, clock, step).ended
    ensures Run(t, lines + more, clock + moreClock, step) == Run(t, lines, clock, step)
    ensures var r := Run(t, lines, clock, step);
      |r.replies| > 0 && r.replies[|r.replies| - 1] == farewell
    decreases |lines|
  {
    var l, n := lines[0], clock[0];
    var s := step(t, l, n);
    assert (lines + more)[1..] == lines[1..] + more;
    assert (clock + moreClock)[1..] == clock[1..] + moreClock;
    assert (lines + more)[0] == l && (clock + moreClock)[0] == n;
    if s.outcome.Ended? {
      assert s.outcome.farewell == farewell;
    } else {
      RunStopsAtEnd(s.table, lines[1..], clock[1..], more, moreClock, step, farewell);
    }
  }

  /** A line on which the handler always ends, whatever the table, ends the
      loop if the loop reaches it: some earlier line ends it, or this one does. */
  lemma {:induction false} RunEndsAtEndingLine(
    t: MemoryTable, lines: seq<string>, clock: seq<int>, x: string, n: int,
    more: seq<string>, moreClock: seq<int>, step: LineHandler)
    requires |clock| == |lines| && |moreClock| == |more|
    requires forall u :: step(u, x, n).outcome.Ended?
    ensures Run(t, lines + [x] + more, clock + [n] + moreClock, step).ended
    decreases |lines|
  {
    var all, allClock := lines + [x] + more, clock + [n] + moreClock;
    if lines == [] {
      assert all[0] == x && allClock[0] == n;
      assert step(t, x, n).outcome.Ended?;
    } else {
      var l, c := lines[0], clock[0];
      assert all[0] == l && allClock[0] == c;
      assert all[1..] == lines[1..] + [x] + more;
      assert allClock[1..] == clock[1..] + [n] + moreClock;
      var s := step(t, l, c);
      if !s.outcome.Ended? {
        RunEndsAtEndingLine(s.table, lines[1..], clock[1..], x, n, more, moreClock, step);
      }
    }
  }

  // ---------------------------------------------------------------------------
  // The session of `main`
  // ---------------------------------------------------------------------------

  lemma SessionRepliesPerLine(
    t: MemoryTable, lines: seq<string>, clock: seq<int>, accessMode: string, intent: string -> string)
    requires |clock| == |lines|
    ensures |Session(t, lines, clock, accessMode, intent).replies| <= |lines|
  {
    RunRepliesPerLine(t, lines, clock, Handler(accessMode, intent));
  }

  /** What a guest's line leads to, whatever the table holds: blank and exit
      lines as for anyone, and for the rest a fixed reply per intent label. */
  function GuestOutcome(line: string, intent: string -> string): (o: StepOutcome)
    ensures o.Replied? ==> o.reply in GuestReplies
    ensures o.Ended? ==> o.farewell in GuestReplies
  {
    var userInput := Strip(line);
    if userInput == "" then Skipped
    else if IsExitCommand(userInput) then Ended(GoodbyeReply)
    else Replied(GuestReplyFor(intent(userInput)))
  }

  function GuestReplyFor(predicted: string): (reply: string)
    ensures reply in GuestReplies
  {
    if predicted == "chat" then ChatReply
    else if predicted == "memory_store" then AccessDeniedReply
    else if predicted == "memory_recall" then PrivacyShieldReply
    else if predicted == "system_command" then SystemRestrictedReply
    else UnknownIntentReply
  }

  /** Every reply a guest can get is one of six fixed messages. */
  const GuestReplies: set<string> :=
    {ChatReply, AccessDeniedReply, PrivacyShieldReply, SystemRestrictedReply, UnknownIntentReply, GoodbyeReply}

  lemma DispatchGuest(t: MemoryTable, userInput: string, now: int, accessMode: string, predicted: string)
    requires accessMode != Owner
    ensures Dispatch(t, userInput, now, accessMode, predicted) == StepResult(Replied(GuestReplyFor(predicted)), t)
  {
    if predicted == "memory_store" {
      assert DecideStore(userInput, accessMode) == Denied;
    }
  }

  /** For a guest, one step neither reads nor writes the table: it is
      `GuestOutcome`, with the table left as it was. */
  lemma GuestStep(t: MemoryTable, line: string, now: int, accessMode: string, intent: string -> string)
    requires accessMode != Owner
    ensures Step(t, line, now, accessMode, intent) == StepResult(GuestOutcome(line, intent), t)
  {
    var userInput := Strip(line);
    if userInput != "" && !IsExitCommand(userInput) {
      DispatchGuest(t, userInput, now, accessMode, intent(userInput));
    }
  }

  /** The guest facts about one step, for every step of the guest handler. */
  lemma GuestHandler(accessMode: string, intent: string -> string)
    requires accessMode != Owner
    ensures forall u, l, n :: Handler(accessMode, intent)(u, l, n) == StepResult(GuestOutcome(l, intent), u)
  {
    forall u, l, n ensures Handler(accessMode, intent)(u, l, n) == StepResult(GuestOutcome(l, intent), u) {
      GuestStep(u, l, n, accessMode, intent);
    }
  }

  /** A guest session never writes to the table. */
  lemma GuestSessionNeverWrites(
    t: MemoryTable, lines: seq<string>, clock: seq<int>, accessMode: string, intent: string -> string)
    requires |clock| == |lines| && accessMode != Owner
    ensures Session(t, lines, clock, accessMode, intent).table == t
  {
    GuestHandler(accessMode, intent);
    RunKeepsTable(t, lines, clock, Handler(accessMode, intent));
  }

  /** A guest session never reads the table: the replies are the same
      whatever the table holds. */
  lemma GuestSessionIgnoresTable(
    t1: MemoryTable, t2: MemoryTable, lines: seq<string>, clock: seq<int>, accessMode: string, intent: string -> string)
    requires |clock| == |lines| && accessMode != Owner
    ensures Session(t1, lines, clock, accessMode, intent).replies == Session(t2, lines, clock, accessMode, intent).replies
    ensures Session(t1, lines, clock, accessMode, intent).ended == Session(t2, lines, clock, accessMode, intent).ended
  {
    GuestHandler(accessMode, intent);
    RunIgnoresTable(t1, t2, lines, clock, Handler(accessMode, intent), (l: string, n: int) => GuestOutcome(l, intent));
  }

  /** Every reply in a guest session is one of the fixed guest messages. */
  lemma GuestSessionRepliesFixed(
    t: MemoryTable, lines: seq<string>, clock: seq<int>, accessMode: string, intent: string -> string)
    requires |clock| == |lines| && accessMode != Owner
    ensures forall i :: 0 <= i < |Session(t, lines, clock, accessMode, intent).replies| ==>
      Session(t, lines, clock, accessMode, intent).replies[i] in GuestReplies
  {
    GuestHandler(accessMode, intent);
    RunRepliesFrom(t, lines, clock, Handler(accessMode, intent), GuestReplies);
  }

  /** Over a whole session the table only grows at the end and stays well formed. */
  lemma SessionAppendOnly(
    t: MemoryTable, lines: seq<string>, clock: seq<int>, accessMode: string, intent: string -> string)
    requires |clock| == |lines|
    ensures t.rows <= Session(t, lines, clock, accessMode, intent).table.rows
    ensures WellFormed(t) ==> WellFormed(Session(t, lines, clock, accessMode, intent).table)
  {
    var step := Handler(accessMode, intent);
    forall u: MemoryTable, l, n ensures u.rows <= step(u, l, n).table.rows {
      StepOnlyStoreWrites(u, l, n, accessMode, intent);
    }
    forall u, l, n | WellFormed(u) ensures WellFormed(step(u, l, n).table) {
      StepKeepsWellFormed(u, l, n, accessMode, intent);
    }
    RunAppendOnly(t, lines, clock, step);
  }

  /** An exit line ends the session with the farewell as the last reply, and
      nothing typed after it is read. */
  lemma SessionStopsAtExit(
    t: MemoryTable, lines: seq<string>, clock: seq<int>, more: seq<string>, moreClock: seq<int>,
    accessMode: string, intent: string -> string)
    requires |clock| == |lines| && |moreClock| == |more|
    requires Session(t, lines, clock, accessMode, intent).ended
    ensures Session(t, lines + more, clock + moreClock, accessMode, intent) == Session(t, lines, clock, accessMode, intent)
    ensures var r := Session(t, lines, clock, accessMode, intent);
      |r.replies| > 0 && r.replies[|r.replies| - 1] == GoodbyeReply
  {
    var step := Handler(accessMode, intent);
    forall u, l, n | step(u, l, n).outcome.Ended? ensures step(u, l, n).outcome.farewell == GoodbyeReply {
      StepBlankOrExit(u, l, n, accessMode, intent);
    }
    RunStopsAtEnd(t, lines, clock, more, moreClock, step, GoodbyeReply);
  }

  /** An exit line ends the session: whatever came before it and whatever
      follows, the session is over by the time that line has been handled. */
  lemma SessionEndsAtExitLine(
    t: MemoryTable, lines: seq<string>, clock: seq<int>, x: string, n: int,
    more: seq<string>, moreClock: seq<int>, accessMode: string, intent: string -> string)
    requires |clock| == |lines| && |moreClock| == |more|
    requires Strip(x) != "" && IsExitCommand(Strip(x))
    ensures Session(t, lines + [x] + more, clock + [n] + moreClock, accessMode, intent).ended
  {
    var step := Handler(accessMode, intent);
    forall u ensures step(u, x, n).outcome.Ended? {
      StepBlankOrExit(u, x, n, accessMode, intent);
    }
    RunEndsAtEndingLine(t, lines, clock, x, n, more, moreClock, step);
  }

  /** One pass of `main`'s loop body. */
  method HandleLine(
    memory: FridayMemory, line: string, now: int, accessMode: string, intent: string -> string)
    returns (outcome: StepOutcome)
    requires memory.Valid()
    modifies memory
    ensures memory.Valid()
    ensures Step(old(memory.Snapshot()), line, now, accessMode, intent) == StepResult(outcome, memory.Snapshot())
  {
    var userInput := Strip(line);
    if userInput == "" {
      return Skipped;
    }
    if IsExitCommand(userInput) {
      return Ended(GoodbyeReply);
    }
    var predicted := intent(userInput);
    if predicted == "chat" {
      outcome := Replied(ChatReply);
    } else if predicted == "memory_store" {
      var response := memory.StoreMemory(userInput, accessMode, now);
      outcome := Replied(response);
    } else if predicted == "memory_recall" {
      var response := memory.RecallMemory(accessMode, DefaultRecallLimit);
      outcome := Replied(response);
    } else if predicted == "system_command" {
      if accessMode != Owner {
        outcome := Replied(SystemRestrictedReply);
      } else {
        outcome := Replied(SystemDisabledReply);
      }
    } else {
      outcome := Replied(UnknownIntentReply);
    }
  }


  /** `main`'s loop, after authentication fixed `accessMode`: handle lines
      until one is an exit command or the lines run out. */
  method RunSession(
    memory: FridayMemory, accessMode: string, lines: seq<string>, clock: seq<int>, intent: string -> string)
    returns (replies: seq<string>, ended: bool)
    requires memory.Valid() && |clock| == |lines|
    modifies memory
    ensures memory.Valid()
    ensures Session(old(memory.Snapshot()), lines, clock, accessMode, intent)
         == SessionResult(replies, ended, memory.Snapshot())
  {
    ghost var step := Handler(accessMode, intent);
    ghost var whole := Run(memory.Snapshot(), lines, clock, step);
    replies, ended := [], false;
    var i := 0;
    while i < |lines| && !ended
      invariant 0 <= i <= |lines|
      invariant memory.Valid()
      invariant ended ==> whole == SessionResult(replies, true, memory.Snapshot())
      invariant !ended ==>
        var rest := Run(memory.Snapshot(), lines[i..], clock[i..], step);
        whole == SessionResult(replies + rest.replies, rest.ended, rest.table)
    {
      var line, now := lines[i], clock[i];
      ghost var before := memory.Snapshot();
      var outcome := HandleLine(memory, line, now, accessMode, intent);
      assert step(before, line, now) == StepResult(outcome, memory.Snapshot());
      RunAdvance(whole, replies, before, lines, clock, i, step, StepResult(outcome, memory.Snapshot()));
      match outcome {
        case Skipped =>
        case Replied(reply) =>
          replies := replies + [reply];
        case Ended(farewell) =>
          replies := replies + [farewell];
          ended := true;
      }
      i := i + 1;
    }
  }
}
