/**
 * The per-user message router (handles/handle.js). Three process-wide
 * tables, the command registry, the user states and the conversation logs,
 * become the fields of `MessageRouter`; `handleMessage` becomes the method
 * `HandleMessage`, which returns the outbound actions in the order the
 * source performs them. Whether a command's `execute` throws and what the
 * image analyzer answers are inputs; message texts are `Notice` tags.
 */
module Router {
  import opened Wrappers
  import opened JsString

  /** A registered command: its declared `name` and its `role` (absent when the command sets none). */
  datatype Command = Command(name: string, role: Option<int>)

  /** `command.role === 0`: only senders on the admin list may run it. */
  predicate AdminOnly(c: Command) {
    c.role == Some(0)
  }

  /** `{awaitingImagePrompt: true, imageUrl}` or `{lockedCommand}`; no entry means idle. */
  datatype UserState = AwaitingImagePrompt(imageUrl: string) | LockedCommand(commandName: string)

  /** A conversation-log entry `{type: 'user', text}`. */
  datatype LogEntry = UserEntry(text: string)

  /** An inbound attachment `{type, payload: {url}}`. */
  datatype InAttachment = InAttachment(kind: string, url: string)

  datatype InMessage = InMessage(text: Option<string>, attachments: Option<seq<InAttachment>>)

  /** A webhook event `{sender: {id}, message}`. */
  datatype InboundEvent = InboundEvent(senderId: Option<string>, message: Option<InMessage>)

  /** What the image analyzer did: answered (possibly with "") or threw. */
  datatype AnalysisOutcome = Answer(text: string) | AnalysisFailed

  /** The fixed messages the router sends, by kind. */
  datatype Notice =
    | ImagePromptRequest
    | ModeExited
    | AnalysisInProgress
    | AnalysisResult(answer: string)
    | NoUsefulInfo
    | AnalysisError
    | NotAuthorized
    | CommandError
    | DefaultCommandError
    | NotUnderstood

  /** One outbound effect: a message to the sender, a command run, an analyzer call. */
  datatype Action =
    | Send(notice: Notice)
    | Execute(command: string, args: seq<string>)
    | Analyze(imageUrl: string, prompt: string)

  /** How `handleMessage` ended: early return on a missing sender, a TypeError, or normally. */
  datatype Status = Rejected | Threw | Completed

  /** The user-state table and the actions one event leaves behind. */
  datatype Reaction = Reaction(states: map<string, UserState>, actions: seq<Action>)

  const DefaultCommand := "ai"

  /** `event?.sender?.id` when it is truthy: absent or empty ids are both refused. */
  function SenderOf(event: InboundEvent): Option<string>
  {
    if IsTruthy(event.senderId) then event.senderId else None
  }

  /** The URL of the first attachment when that attachment is an image; later attachments are never looked at. */
  function ImageUrlOf(m: InMessage): Option<string>
  {
    if m.attachments.Some? && |m.attachments.value| > 0 && m.attachments.value[0].kind == "image"
    then Some(m.attachments.value[0].url)
    else None
  }

  /** `event.message.text || 'Image'`: the text when it is non-empty, the word "Image" otherwise. */
  function LogText(m: InMessage): string
  {
    if IsTruthy(m.text) then m.text.value else "Image"
  }

  /** The sender's log, empty when there is none yet. */
  function LogOf(logs: map<string, seq<LogEntry>>, id: string): seq<LogEntry>
  {
    if id in logs then logs[id] else []
  }

  /**
   * Whether the trimmed text means "leave the current mode": it is the word
   * "stop" in any mix of cases, and nothing else.
   */
  predicate IsStop(trimmed: string)
    ensures IsStop(trimmed) <==>
              |trimmed| == 4 && trimmed[0] in "sS" && trimmed[1] in "tT" && trimmed[2] in "oO" && trimmed[3] in "pP"
  {
    var low := ToLower(trimmed);
    assert |trimmed| == 4 ==>
             low == [LowerChar(trimmed[0]), LowerChar(trimmed[1]), LowerChar(trimmed[2]), LowerChar(trimmed[3])];
    low == "stop"
  }

  /**
   * The command name: the first piece of `split(' ')`, lower-cased. It is the
   * lower-cased text up to (not including) the first space, or all of it.
   */
  function CommandName(trimmed: string): (r: string)
    ensures |r| <= |trimmed| && r == ToLower(trimmed[..|r|])
    ensures ' ' !in trimmed[..|r|]
    ensures |r| < |trimmed| ==> trimmed[|r|] == ' '
  {
    var parts := Split(trimmed);
    JoinHead(parts);
    ToLower(parts[0])
  }

  /**
   * The arguments: every piece of `split(' ')` after the first, as typed. There
   * are none exactly when the text has no space; otherwise, joined back with
   * single spaces, they are the text after the first space.
   */
  function CommandArgs(trimmed: string): (r: seq<string>)
    ensures r == [] <==> ' ' !in trimmed
    ensures r != [] ==> Join(r) == trimmed[|Split(trimmed)[0]| + 1..]
  {
    var parts := Split(trimmed);
    JoinHead(parts);
    parts[1..]
  }

  /** Every key is the lower-cased name of the command stored under it. */
  ghost predicate KeyedByLowerName(commands: map<string, Command>) {
    forall k :: k in commands ==> ToLower(commands[k].name) == k
  }

  /**
   * The registry after registering `defs` in order on top of `base`: its keys
   * are the old keys plus the lower-cased name of every definition.
   */
  function Registered(base: map<string, Command>, defs: seq<Command>): (r: map<string, Command>)
    ensures r.Keys == base.Keys + (set i | 0 <= i < |defs| :: ToLower(defs[i].name))
    decreases |defs|
  {
    if defs == [] then base
    else
      var last := defs[|defs| - 1];
      var init := defs[..|defs| - 1];
      var prev := Registered(base, init);
      assert (set i | 0 <= i < |defs| :: ToLower(defs[i].name))
          == (set i | 0 <= i < |init| :: ToLower(init[i].name)) + {ToLower(last.name)};
      prev[ToLower(last.name) := last]
  }

  /**
   * `analyzeImageWithPrompt`: a progress message, the analyzer call with the
   * prompt as given, then exactly one of the answer, "no useful info" (for an
   * empty answer) or the error message.
   */
  function AnalysisActions(imageUrl: string, prompt: string, outcome: AnalysisOutcome): (r: seq<Action>)
    ensures |r| == 3
    ensures r[0] == Send(AnalysisInProgress) && r[1] == Analyze(imageUrl, prompt)
    ensures r[2] == Send(NoUsefulInfo) <==> outcome == Answer("")
    ensures r[2] == Send(AnalysisError) <==> outcome.AnalysisFailed?
    ensures forall a :: r[2] == Send(AnalysisResult(a)) <==> (outcome == Answer(a) && a != "")
  {
    var report :=
      match outcome
      case Answer(a) => if a != "" then AnalysisResult(a) else NoUsefulInfo
      case AnalysisFailed => AnalysisError;
    [Send(AnalysisInProgress), Analyze(imageUrl, prompt), Send(report)]
  }

  /**
   * The routing decision for a valid event from `id` carrying message `m`:
   * the new user-state table and the actions, in order.
   */
  function Respond(commands: map<string, Command>, states: map<string, UserState>, id: string,
                   m: InMessage, adminIds: seq<string>, commandThrows: bool,
                   analysis: AnalysisOutcome): (r: Reaction)
    ensures forall k :: k != id ==> (k in r.states <==> k in states)
    ensures forall k :: k != id && k in states ==> r.states[k] == states[k]
    ensures forall a :: a in r.actions && a.Execute? ==> a.command in commands
  {
    if ImageUrlOf(m).Some? then
      Reaction(states[id := AwaitingImagePrompt(ImageUrlOf(m).value)], [Send(ImagePromptRequest)])
    else if IsTruthy(m.text) then
      RespondToText(commands, states, id, Trim(m.text.value), adminIds, commandThrows, analysis)
    else
      Reaction(states, [])
  }

  /** The decision for the trimmed text of a message without an image. */
  function RespondToText(commands: map<string, Command>, states: map<string, UserState>, id: string,
                         text: string, adminIds: seq<string>, commandThrows: bool,
                         analysis: AnalysisOutcome): (r: Reaction)
    ensures forall k :: k != id ==> (k in r.states <==> k in states)
    ensures forall k :: k != id && k in states ==> r.states[k] == states[k]
    ensures forall a :: a in r.actions && a.Execute? ==> a.command in commands
  {
    if IsStop(text) then
      Reaction(states - {id}, [Send(ModeExited)])
    else if id in states && states[id].AwaitingImagePrompt? then
      Reaction(states, AnalysisActions(states[id].imageUrl, text, analysis))
    else
      Dispatch(commands, states, id, text, adminIds, commandThrows)
  }

  /** Command dispatch: the named command, the role gate, or the default command. */
  function Dispatch(commands: map<string, Command>, states: map<string, UserState>, id: string,
                    text: string, adminIds: seq<string>, commandThrows: bool): (r: Reaction)
    ensures forall k :: k != id ==> (k in r.states <==> k in states)
    ensures forall k :: k != id && k in states ==> r.states[k] == states[k]
    ensures forall a :: a in r.actions && a.Execute? ==> a.command in commands
  {
    var name := CommandName(text);
    if name in commands then
      if AdminOnly(commands[name]) && id !in adminIds then
        Reaction(states, [Send(NotAuthorized)])
      else
        Reaction(states[id := LockedCommand(name)],
                 [Execute(name, CommandArgs(text))] + (if commandThrows then [Send(CommandError)] else []))
    else if DefaultCommand in commands then
      Reaction(states, [Execute(DefaultCommand, [text])] + (if commandThrows then [Send(DefaultCommandError)] else []))
    else
      Reaction(states, [Send(NotUnderstood)])
  }

  /** The command name of any capitalisation of a text is the name of the text itself. */
  lemma CommandNameIgnoresCase(text: string)
    ensures CommandName(ToLower(text)) == CommandName(text)
    ensures |CommandArgs(ToLower(text))| == |CommandArgs(text)|
  {
    SplitToLower(text);
    ToLowerIdempotent(Split(text)[0]);
  }

  /** "HELP", "help" and "Help": texts that agree up to case select the same registry key. */
  lemma SameNameUpToCase(a: string, b: string)
    requires ToLower(a) == ToLower(b)
    ensures CommandName(a) == CommandName(b)
  {
    CommandNameIgnoresCase(a);
    CommandNameIgnoresCase(b);
  }

  /** The command name is a lower-cased word: no space in it, and folding case again changes nothing. */
  lemma CommandNameIsLowerWord(text: string)
    ensures ' ' !in CommandName(text)
    ensures ToLower(CommandName(text)) == CommandName(text)
  {
    ToLowerIdempotent(Split(text)[0]);
  }

  /** The first piece and the arguments, joined again with single spaces, give back the text exactly; no argument holds a space. */
  lemma CommandLineRoundTrip(text: string)
    ensures Join([Split(text)[0]] + CommandArgs(text)) == text
    ensures forall i :: 0 <= i < |CommandArgs(text)| ==> ' ' !in CommandArgs(text)[i]
  {
    var parts := Split(text);
    assert [parts[0]] + parts[1..] == parts;
  }

  /** "stop" is recognised whatever its case and whatever whitespace surrounds it. */
  lemma StopIgnoresCaseAndPadding(pre: string, word: string, post: string)
    requires AllWhitespace(pre) && AllWhitespace(post)
    requires ToLower(word) == "stop"
    ensures IsStop(Trim(pre + word + post))
  {
    var low := ToLower(word);
    assert |word| == 4 && low[0] == 's' && low[3] == 'p';
    assert low[0] == LowerChar(word[0]) && low[3] == LowerChar(word[3]);
    assert word[0] in "sS" && word[3] in "pP";
    assert Unpadded(word);
    TrimOfUnpadded(word);
    TrimIgnoresPadding(pre, word, post);
  }

  /** With no entry for a key, registration keeps what the base held for it. */
  lemma {:induction false} RegisteredKeepsUntouched(base: map<string, Command>, defs: seq<Command>, key: string)
    requires forall i :: 0 <= i < |defs| ==> ToLower(defs[i].name) != key
    ensures key in Registered(base, defs) <==> key in base
    ensures key in base ==> Registered(base, defs)[key] == base[key]
    decreases |defs|
  {
    if defs != [] {
      RegisteredKeepsUntouched(base, defs[..|defs| - 1], key);
    }
  }

  /** The last definition whose lower-cased name is `key` is the one registered under `key`. */
  lemma {:induction false} LastRegistrationWins(base: map<string, Command>, defs: seq<Command>, i: nat)
    requires i < |defs|
    requires forall j :: i < j < |defs| ==> ToLower(defs[j].name) != ToLower(defs[i].name)
    ensures ToLower(defs[i].name) in Registered(base, defs)
    ensures Registered(base, defs)[ToLower(defs[i].name)] == defs[i]
    decreases |defs|
  {
    if i < |defs| - 1 {
      LastRegistrationWins(base, defs[..|defs| - 1], i);
    }
  }

  /** Registering keeps the registry keyed by lower-cased names. */
  lemma {:induction false} RegisteredKeyedByLowerName(base: map<string, Command>, defs: seq<Command>)
    requires KeyedByLowerName(base)
    ensures KeyedByLowerName(Registered(base, defs))
    decreases |defs|
  {
    if defs != [] {
      var last := defs[|defs| - 1];
      RegisteredKeyedByLowerName(base, defs[..|defs| - 1]);
      ToLowerIdempotent(last.name);
    }
  }

  /** Every registry key is already lower case, so lookup by a lower-cased name is case-insensitive. */
  lemma RegistryKeysAreLowerCase(commands: map<string, Command>, key: string)
    requires KeyedByLowerName(commands)
    requires key in commands
    ensures ToLower(key) == key
  {
    ToLowerIdempotent(commands[key].name);
  }

  /** An image as first attachment wins over any text, "stop" and registered command names included. */
  lemma ImageTakesPrecedence(commands: map<string, Command>, states: map<string, UserState>, id: string,
                             m: InMessage, adminIds: seq<string>, commandThrows: bool, analysis: AnalysisOutcome)
    requires m.attachments.Some? && |m.attachments.value| > 0 && m.attachments.value[0].kind == "image"
    ensures var r := Respond(commands, states, id, m, adminIds, commandThrows, analysis);
            && r.states == states[id := AwaitingImagePrompt(m.attachments.value[0].url)]
            && r.actions == [Send(ImagePromptRequest)]
  {
  }

  /** Only the first attachment is looked at: when it is not an image the message is handled as if it had no attachments. */
  lemma OnlyFirstAttachmentCounts(commands: map<string, Command>, states: map<string, UserState>, id: string,
                                  m: InMessage, adminIds: seq<string>, commandThrows: bool,
                                  analysis: AnalysisOutcome)
    requires m.attachments.Some? && |m.attachments.value| > 0 && m.attachments.value[0].kind != "image"
    ensures Respond(commands, states, id, m, adminIds, commandThrows, analysis)
            == Respond(commands, states, id, m.(attachments := None), adminIds, commandThrows, analysis)
  {
  }

  /** "stop" clears the sender's state, whatever it was, with one confirmation and no command run. */
  lemma StopClearsAnyState(commands: map<string, Command>, states: map<string, UserState>, id: string,
                           text: string, adminIds: seq<string>, commandThrows: bool, analysis: AnalysisOutcome)
    requires IsStop(text)
    ensures var r := RespondToText(commands, states, id, text, adminIds, commandThrows, analysis);
            && id !in r.states
            && r.states == states - {id}
            && r.actions == [Send(ModeExited)]
  {
  }

  /**
   * While an image prompt is pending, the trimmed text goes to the analyzer
   * as the prompt, even when it names a command; the state stays as it was.
   */
  lemma PendingPromptBypassesCommands(commands: map<string, Command>, states: map<string, UserState>, id: string,
                                      text: string, adminIds: seq<string>, commandThrows: bool,
                                      analysis: AnalysisOutcome)
    requires !IsStop(text)
    requires id in states && states[id].AwaitingImagePrompt?
    ensures var r := RespondToText(commands, states, id, text, adminIds, commandThrows, analysis);
            && r.states == states
            && r.actions == AnalysisActions(states[id].imageUrl, text, analysis)
            && forall a :: a in r.actions ==> !a.Execute?
  {
  }

  /** A non-admin asking for an admin-only command gets one refusal; nothing runs and the state is kept. */
  lemma AdminOnlyCommandRefused(commands: map<string, Command>, states: map<string, UserState>, id: string,
                                text: string, adminIds: seq<string>, commandThrows: bool)
    requires CommandName(text) in commands && AdminOnly(commands[CommandName(text)])
    requires id !in adminIds
    ensures Dispatch(commands, states, id, text, adminIds, commandThrows) == Reaction(states, [Send(NotAuthorized)])
  {
  }

  /**
   * A permitted registered command locks the sender to it before it runs, so
   * the lock stays when it throws; a throw adds exactly one error message.
   */
  lemma LockedBeforeExecute(commands: map<string, Command>, states: map<string, UserState>, id: string,
                            text: string, adminIds: seq<string>, commandThrows: bool)
    requires CommandName(text) in commands
    requires !AdminOnly(commands[CommandName(text)]) || id in adminIds
    ensures var r := Dispatch(commands, states, id, text, adminIds, commandThrows);
            && r.states == states[id := LockedCommand(CommandName(text))]
            && r.actions[0] == Execute(CommandName(text), CommandArgs(text))
            && |r.actions| == (if commandThrows then 2 else 1)
            && (commandThrows ==> r.actions[1] == Send(CommandError))
  {
  }

  /**
   * An unknown name falls back to the default command, which receives the
   * whole trimmed text as its only argument and leaves the state alone.
   */
  lemma FallbackGetsWholeText(commands: map<string, Command>, states: map<string, UserState>, id: string,
                              text: string, adminIds: seq<string>, commandThrows: bool)
    requires CommandName(text) !in commands && DefaultCommand in commands
    ensures var r := Dispatch(commands, states, id, text, adminIds, commandThrows);
            && r.states == states
            && r.actions[0] == Execute(DefaultCommand, [text])
            && |r.actions| == (if commandThrows then 2 else 1)
            && (commandThrows ==> r.actions[1] == Send(DefaultCommandError))
  {
  }

  /** Without a default command an unknown name gets one "not understood" message. */
  lemma UnknownWithoutDefault(commands: map<string, Command>, states: map<string, UserState>, id: string,
                              text: string, adminIds: seq<string>, commandThrows: bool)
    requires CommandName(text) !in commands && DefaultCommand !in commands
    ensures Dispatch(commands, states, id, text, adminIds, commandThrows) == Reaction(states, [Send(NotUnderstood)])
  {
  }

  /**
   * The role gate is skipped only by the fallback: an admin-only command runs
   * for a non-admin only as the default command, given the whole text.
   */
  lemma RoleGateOnlyBypassedByFallback(commands: map<string, Command>, states: map<string, UserState>, id: string,
                                       text: string, adminIds: seq<string>, commandThrows: bool,
                                       name: string, args: seq<string>)
    requires id !in adminIds
    requires Execute(name, args) in Dispatch(commands, states, id, text, adminIds, commandThrows).actions
    requires name in commands && AdminOnly(commands[name])
    ensures name == DefaultCommand && args == [text] && CommandName(text) !in commands
  {
  }

  /** At most one command runs per event, and it is the first action. */
  lemma AtMostOneExecute(commands: map<string, Command>, states: map<string, UserState>, id: string,
                         m: InMessage, adminIds: seq<string>, commandThrows: bool, analysis: AnalysisOutcome)
    ensures var r := Respond(commands, states, id, m, adminIds, commandThrows, analysis);
            forall i :: 1 <= i < |r.actions| ==> !r.actions[i].Execute?
  {
    var r := Respond(commands, states, id, m, adminIds, commandThrows, analysis);
    if ImageUrlOf(m).Some? {
      assert r.actions == [Send(ImagePromptRequest)];
    } else if !IsTruthy(m.text) {
      assert r.actions == [];
    } else {
      var text := Trim(m.text.value);
      var t := RespondToText(commands, states, id, text, adminIds, commandThrows, analysis);
      assert r == t;
      if IsStop(text) {
        assert t.actions == [Send(ModeExited)];
      } else if id in states && states[id].AwaitingImagePrompt? {
        var a := AnalysisActions(states[id].imageUrl, text, analysis);
        assert t.actions == a;
        assert |a| == 3 && a[1].Analyze? && a[2].Send?;
        forall i | 1 <= i < |r.actions| ensures !r.actions[i].Execute? {
          assert i == 1 || i == 2;
        }
      } else {
        var d := Dispatch(commands, states, id, text, adminIds, commandThrows);
        assert t == d;
        DispatchRunsFirst(commands, states, id, text, adminIds, commandThrows);
        forall i | 1 <= i < |r.actions| ensures !r.actions[i].Execute? {
          assert i == 1;
        }
      }
    }
  }

  /** Dispatch runs a command, if any, only as its first action. */
  lemma DispatchRunsFirst(commands: map<string, Command>, states: map<string, UserState>, id: string,
                          text: string, adminIds: seq<string>, commandThrows: bool)
    ensures var d := Dispatch(commands, states, id, text, adminIds, commandThrows);
            1 <= |d.actions| <= 2 && (|d.actions| == 2 ==> d.actions[1].Send?)
  {
  }

  /** The actions of dispatch do not depend on the user-state table. */
  lemma DispatchActionsIgnoreStates(commands: map<string, Command>, s1: map<string, UserState>,
                                    s2: map<string, UserState>, id: string, text: string,
                                    adminIds: seq<string>, commandThrows: bool)
    ensures Dispatch(commands, s1, id, text, adminIds, commandThrows).actions
            == Dispatch(commands, s2, id, text, adminIds, commandThrows).actions
  {
  }

  /** A message with neither an image first nor truthy text changes nothing and sends nothing. */
  lemma SilentWithoutTextOrImage(commands: map<string, Command>, states: map<string, UserState>, id: string,
                                 m: InMessage, adminIds: seq<string>, commandThrows: bool, analysis: AnalysisOutcome)
    requires ImageUrlOf(m).None? && !IsTruthy(m.text)
    ensures Respond(commands, states, id, m, adminIds, commandThrows, analysis) == Reaction(states, [])
  {
  }

  /** A locked command is written but never read: the actions are those of a user with no state. */
  lemma LockedCommandIsNeverRead(commands: map<string, Command>, states: map<string, UserState>, id: string,
                                 m: InMessage, adminIds: seq<string>, commandThrows: bool,
                                 analysis: AnalysisOutcome, locked: string)
    ensures Respond(commands, states[id := LockedCommand(locked)], id, m, adminIds, commandThrows, analysis).actions
            == Respond(commands, states - {id}, id, m, adminIds, commandThrows, analysis).actions
  {
    var lockedStates, idle := states[id := LockedCommand(locked)], states - {id};
    var r1 := Respond(commands, lockedStates, id, m, adminIds, commandThrows, analysis);
    var r2 := Respond(commands, idle, id, m, adminIds, commandThrows, analysis);
    if ImageUrlOf(m).Some? {
      assert r1.actions == [Send(ImagePromptRequest)] == r2.actions;
    } else if !IsTruthy(m.text) {
      assert r1.actions == [] == r2.actions;
    } else {
      var text := Trim(m.text.value);
      assert r1 == RespondToText(commands, lockedStates, id, text, adminIds, commandThrows, analysis);
      assert r2 == RespondToText(commands, idle, id, text, adminIds, commandThrows, analysis);
      if IsStop(text) {
        assert r1.actions == [Send(ModeExited)] == r2.actions;
      } else {
        assert lockedStates[id].LockedCommand? && id !in idle;
        assert r1 == Dispatch(commands, lockedStates, id, text, adminIds, commandThrows);
        assert r2 == Dispatch(commands, idle, id, text, adminIds, commandThrows);
        DispatchActionsIgnoreStates(commands, lockedStates, idle, id, text, adminIds, commandThrows);
      }
    }
  }

  /**
   * Answering an image prompt does not clear it: a second text message
   * (not "stop", no image) is analysed against the same stored image URL.
   */
  lemma PendingPromptPersists(commands: map<string, Command>, states: map<string, UserState>, id: string,
                              m1: InMessage, m2: InMessage, adminIds: seq<string>, commandThrows: bool,
                              a1: AnalysisOutcome, a2: AnalysisOutcome, url: string)
    requires id in states && states[id] == AwaitingImagePrompt(url)
    requires ImageUrlOf(m1).None? && IsTruthy(m1.text) && !IsStop(Trim(m1.text.value))
    requires ImageUrlOf(m2).None? && IsTruthy(m2.text) && !IsStop(Trim(m2.text.value))
    ensures var r1 := Respond(commands, states, id, m1, adminIds, commandThrows, a1);
            var r2 := Respond(commands, r1.states, id, m2, adminIds, commandThrows, a2);
            && r2.states == states
            && r2.actions == AnalysisActions(url, Trim(m2.text.value), a2)
  {
  }

  class MessageRouter {
    var commands: map<string, Command>
    var userStates: map<string, UserState>
    var userConversations: map<string, seq<LogEntry>>

    ghost predicate Valid()
      reads this
    {
      KeyedByLowerName(commands)
    }

    /** The three tables start empty. */
    constructor ()
      ensures Valid()
      ensures commands == map[] && userStates == map[] && userConversations == map[]
    {
      commands, userStates, userConversations := map[], map[], map[];
    }

    /** `commands.set(command.name.toLowerCase(), command)`: the last registration of a name wins. */
    method Register(command: Command)
      requires Valid()
      modifies this
      ensures Valid()
      ensures commands == old(commands)[ToLower(command.name) := command]
      ensures userStates == old(userStates) && userConversations == old(userConversations)
    {
      ToLowerIdempotent(command.name);
      commands := commands[ToLower(command.name) := command];
    }

    /** The loading loop: registers the command definitions in order. */
    method LoadCommands(defs: seq<Command>)
      requires Valid()
      modifies this
      ensures Valid()
      ensures commands == Registered(old(commands), defs)
      ensures userStates == old(userStates) && userConversations == old(userConversations)
    {
      var i := 0;
      while i < |defs|
        invariant 0 <= i <= |defs|
        invariant Valid()
        invariant commands == Registered(old(commands), defs[..i])
        invariant userStates == old(userStates) && userConversations == old(userConversations)
      {
        assert defs[..i + 1][..i] == defs[..i];
        Register(defs[i]);
        i := i + 1;
      }
      assert defs[..i] == defs;
    }

    /** `askForImagePrompt`: remember the image and ask what to do with it. */
    method AskForImagePrompt(senderId: string, imageUrl: string) returns (actions: seq<Action>)
      requires Valid()
      modifies this
      ensures Valid()
      ensures userStates == old(userStates)[senderId := AwaitingImagePrompt(imageUrl)]
      ensures actions == [Send(ImagePromptRequest)]
      ensures commands == old(commands) && userConversations == old(userConversations)
    {
      userStates := userStates[senderId := AwaitingImagePrompt(imageUrl)];
      actions := [Send(ImagePromptRequest)];
    }

    /** `handleMessage(event)` with the admin list, the command outcome and the analyzer outcome as inputs. */
    method HandleMessage(event: InboundEvent, adminIds: seq<string>, commandThrows: bool,
                         analysis: AnalysisOutcome) returns (status: Status, actions: seq<Action>)
      requires Valid()
      modifies this
      ensures Valid()
      ensures commands == old(commands)
      ensures status == Rejected <==> SenderOf(event).None?
      ensures status == Threw <==> SenderOf(event).Some? && event.message.None?
      ensures status != Completed ==> actions == [] && userStates == old(userStates)
      ensures status == Rejected ==> userConversations == old(userConversations)
      ensures status == Threw ==>
                var id := event.senderId.value;
                userConversations == old(userConversations)[id := LogOf(old(userConversations), id)]
      ensures status == Completed ==>
                var id := event.senderId.value;
                var m := event.message.value;
                && userConversations == old(userConversations)[id := LogOf(old(userConversations), id) + [UserEntry(LogText(m))]]
                && Reaction(userStates, actions)
                   == Respond(old(commands), old(userStates), id, m, adminIds, commandThrows, analysis)
    {
      if SenderOf(event).None? {
        return Rejected, [];
      }
      var senderId := event.senderId.value;

      if senderId !in userConversations {
        userConversations := userConversations[senderId := []];
      }
      if event.message.None? {
        // `event.message.text` dereferences a missing message.
        return Threw, [];
      }
      var message := event.message.value;
      userConversations := userConversations[senderId := userConversations[senderId] + [UserEntry(LogText(message))]];
      assert userConversations
             == old(userConversations)[senderId := LogOf(old(userConversations), senderId) + [UserEntry(LogText(message))]];
      status := Completed;

      var imageUrl := ImageUrlOf(message);
      if imageUrl.Some? {
        actions := AskForImagePrompt(senderId, imageUrl.value);
      } else if IsTruthy(message.text) {
        actions := HandleText(senderId, Trim(message.text.value), adminIds, commandThrows, analysis);
      } else {
        actions := [];
      }
    }

    /**
     * The text branch of `handleMessage` for trimmed text: the "stop" keyword,
     * a pending image prompt, then command dispatch with the default command
     * as fallback.
     */
    method HandleText(senderId: string, messageText: string, adminIds: seq<string>, commandThrows: bool,
                      analysis: AnalysisOutcome) returns (actions: seq<Action>)
      requires Valid()
      modifies this
      ensures Valid()
      ensures commands == old(commands) && userConversations == old(userConversations)
      ensures Reaction(userStates, actions)
              == RespondToText(old(commands), old(userStates), senderId, messageText, adminIds, commandThrows, analysis)
    {
      if ToLower(messageText) == "stop" {
        userStates := userStates - {senderId};
        actions := [Send(ModeExited)];
        return;
      }

      if senderId in userStates && userStates[senderId].AwaitingImagePrompt? {
        actions := AnalysisActions(userStates[senderId].imageUrl, messageText, analysis);
        return;
      }

      actions := DispatchCommand(senderId, messageText, adminIds, commandThrows);
    }

    /** The command part of `handleMessage`: look the name up, check the role, lock and run, or fall back. */
    method DispatchCommand(senderId: string, messageText: string, adminIds: seq<string>, commandThrows: bool)
      returns (actions: seq<Action>)
      requires Valid()
      modifies this
      ensures Valid()
      ensures commands == old(commands) && userConversations == old(userConversations)
      ensures Reaction(userStates, actions)
              == Dispatch(old(commands), old(userStates), senderId, messageText, adminIds, commandThrows)
    {
      var args := Split(messageText);
      var commandName := ToLower(args[0]);
      args := args[1..];
      assert commandName == CommandName(messageText) && args == CommandArgs(messageText);

      if commandName in commands {
        var command := commands[commandName];
        if command.role == Some(0) && senderId !in adminIds {
          actions := [Send(NotAuthorized)];
          return;
        }
        userStates := userStates[senderId := LockedCommand(commandName)];
        actions := [Execute(commandName, args)];
        if commandThrows {
          actions := actions + [Send(CommandError)];
        }
      } else if DefaultCommand in commands {
        actions := [Execute(DefaultCommand, [messageText])];
        if commandThrows {
          actions := actions + [Send(DefaultCommandError)];
        }
      } else {
        actions := [Send(NotUnderstood)];
      }
    }
  }
}
