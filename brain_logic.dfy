/** Reply generation: a system prompt chosen by access mode, a user prompt
    for the current turn, and the reply assembled from the language model's
    streamed chunks. The model itself is a parameter: a function from the
    (system prompt, user prompt) pair to the chunks it streams back. */
module BrainLogic {
  import opened Text
  import opened AccessMode

  /** One streamed item; only its `"response"` field is used. */
  datatype Chunk = Chunk(response: string)

  /** The text of a stream: every chunk's response, in stream order. */
  function ConcatResponses(chunks: seq<Chunk>): string {
    if chunks == [] then "" else ConcatResponses(chunks[..|chunks| - 1]) + chunks[|chunks| - 1].response
  }

  /** The text of two consecutive stretches of a stream is the two texts joined. */
  lemma {:induction false} ConcatResponsesAppend(a: seq<Chunk>, b: seq<Chunk>)
    ensures ConcatResponses(a + b) == ConcatResponses(a) + ConcatResponses(b)
    decreases |b|
  {
    if b == [] {
      assert a + b == a;
    } else {
      var b' := b[..|b| - 1];
      assert (a + b)[..|a + b| - 1] == a + b';
      assert (a + b)[|a + b| - 1] == b[|b| - 1];
      ConcatResponsesAppend(a, b');
      assert ConcatResponses(b) == ConcatResponses(b') + b[|b| - 1].response;
    }
  }

  /** The text of a one-chunk stream is that chunk's response; of none, "". */
  lemma ConcatResponsesBasics(c: Chunk)
    ensures ConcatResponses([]) == ""
    ensures ConcatResponses([c]) == c.response
  {
    assert [c][..0] == [];
  }

  const DefaultOwnerName := "Abhiram"

  const GuestRules :=
    "Rules:\n- Do NOT reveal personal memories\n- Do NOT confirm private details\n- Politely refuse restricted actions\n"

  const GuestHead := "\nYou are FRIDAY operating in GUEST MODE.\nPermissions: Restricted.\n\n"
  const ContextHeading := "\nRecent Conversation (Working Memory):\n"

  /** The guest template; it has a slot for the working context only. */
  function GuestSystemPrompt(workingContext: string): (p: string)
    ensures Contains(p, workingContext) && Contains(p, GuestRules)
  {
    ContainsSlots2(GuestHead, GuestRules, ContextHeading, workingContext, "\n");
    GuestHead + GuestRules + ContextHeading + workingContext + "\n"
  }

  const OwnerHead := "\nYou are FRIDAY, a private AI assistant created by "
  const OwnerStatus := ".\nStatus: OWNER VERIFIED.\nPermissions: Full conversational access. Personal memory allowed.\nTone: Professional, loyal, intelligent (JARVIS-like).\n\nRecent Conversation (Working Memory):\n"
  const MemoryHeading := "\n\nLong-Term Memory (Important Facts Only):\n"

  /** The owner template: slots for the owner's name, the working context and the memories. */
  function OwnerSystemPrompt(ownerName: string, memories: string, workingContext: string): (p: string)
    ensures Contains(p, ownerName) && Contains(p, workingContext) && Contains(p, memories)
  {
    ContainsSlots3(OwnerHead, ownerName, OwnerStatus, workingContext, MemoryHeading, memories, "\n");
    OwnerHead + ownerName + OwnerStatus + workingContext + MemoryHeading + memories + "\n"
  }

  const IntentHeading := "\nIntent Label: "
  const MessageHeading := "\nUser Message: "
  const UserPromptTail := "\n\nRespond naturally, maintaining conversational continuity.\n"

  /** The user prompt: intent label and message, the same for every access mode. */
  function UserPrompt(intent: string, userInput: string): (p: string)
    ensures Contains(p, intent) && Contains(p, userInput)
  {
    ContainsSlots2(IntentHeading, intent, MessageHeading, userInput, UserPromptTail);
    IntentHeading + intent + MessageHeading + userInput + UserPromptTail
  }

  /** `FridayBrain`; its only state is the owner's name, set once. */
  datatype FridayBrain = FridayBrain(ownerName: string := DefaultOwnerName) {

    /** The system prompt: for OWNER it names the owner and carries the
        working context and the long-term memories; for any other mode it is
        the guest template, which carries the working context and the
        refusal rules. */
    function SystemPrompt(accessMode: string, memories: string, workingContext: string): (p: string)
      ensures accessMode == Owner ==>
        Contains(p, ownerName) && Contains(p, workingContext) && Contains(p, memories)
      ensures accessMode != Owner ==> Contains(p, workingContext) && Contains(p, GuestRules)
    {
      if accessMode == Owner then OwnerSystemPrompt(ownerName, memories, workingContext)
      else GuestSystemPrompt(workingContext)
    }

    /** `generate_response`: build both prompts, stream, and concatenate.
        `memories` and `workingContext` default to "" as in the source; the
        model parameter comes before them so that the defaults can trail. */
    method GenerateResponse(
      userInput: string, intent: string, accessMode: string, generate: (string, string) -> seq<Chunk>,
      memories: string := "", workingContext: string := "")
      returns (fullResponse: string)
      ensures fullResponse ==
        ConcatResponses(generate(SystemPrompt(accessMode, memories, workingContext), UserPrompt(intent, userInput)))
    {
      var systemPrompt := SystemPrompt(accessMode, memories, workingContext);
      var prompt := UserPrompt(intent, userInput);
      var stream := generate(systemPrompt, prompt);
      fullResponse := "";
      for i := 0 to |stream|
        invariant fullResponse == ConcatResponses(stream[..i])
      {
        assert stream[..i + 1][..i] == stream[..i];
        var token := stream[i].response;
        fullResponse := fullResponse + token;
      }
      assert stream[..|stream|] == stream;
    }
  }

  /** A brain built without an owner name is the repository owner's: its
      OWNER prompt names "Abhiram". */
  lemma DefaultBrainNamesOwner(memories: string, workingContext: string)
    ensures Contains(FridayBrain().SystemPrompt(Owner, memories, workingContext), "Abhiram")
  {
  }

  /** A guest's prompt, and so everything the model is given, is the same
      whatever the memories and whoever the owner: memories cannot reach a guest reply. */
  lemma GuestPromptIgnoresMemories(
    b1: FridayBrain, b2: FridayBrain, accessMode: string, m1: string, m2: string, workingContext: string,
    intent: string, userInput: string, generate: (string, string) -> seq<Chunk>)
    requires accessMode != Owner
    ensures b1.SystemPrompt(accessMode, m1, workingContext) == b2.SystemPrompt(accessMode, m2, workingContext)
    ensures ConcatResponses(generate(b1.SystemPrompt(accessMode, m1, workingContext), UserPrompt(intent, userInput)))
         == ConcatResponses(generate(b2.SystemPrompt(accessMode, m2, workingContext), UserPrompt(intent, userInput)))
  {
  }
}
