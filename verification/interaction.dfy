/**
 The clarification loop of `interact_with_assistant`
 (assistant/assistant_interaction.py): the prompt is sent to the assistant;
 a reply that passes the completeness check ends the loop with whatever JSON
 can be extracted from it; otherwise the reply is shown to the user and the
 user's answer is appended to the prompt for the next round.

 The assistant call and the console are not modelled as I/O: each round's
 assistant reply and user answer are inputs. A reply of `None` stands for the
 chat call raising an `Exception` or returning no content (the check then
 raises `TypeError` on `None`), and a user answer of `None` for `input()`
 raising an `Exception` such as `EOFError`; both end in
 `interact_with_assistant`'s `except Exception` clause, which returns `None`.
 */
module Interaction {
  import opened Common
  import opened Validation
  import opened Extraction

  /** The part of the first prompt that precedes the transcribed text. */
  const PromptHead: string :=
    "You are an assistant helping with cryptocurrency payments. The user "
    + "provided the following transcribed text: \n\n"

  /** The part of the first prompt that follows the transcribed text. */
  const PromptTail: string :=
    "\n\n"
    + "Your task is to: \n"
    + "1. Extract the action (send or request payment).\n"
    + "2. Extract the amount.\n"
    + "3. Extract the currency (e.g., XRP, BTC, ETH).\n"
    + "4. Extract the recipient's Telegram handle (e.g., @username).\n"
    + "5. If any information is missing or unclear, ask the user for clarification.\n"
    + "6. When a name is mentioned, assume that it is the telegram handle first, and ask for confirmation\n"
    + "7. Once all information is gathered, generate a JSON object containing "
    + "all the necessary payment information for processing on the XRP ledger."

  /** The text that introduces each answer the user adds to the prompt. */
  const AnswerLead: string := "\n\nThe user provided the following additional information: "

  /**
   The first prompt: the transcribed text sits verbatim between a fixed head
   and a fixed tail, so it can be read back out of the prompt.
   */
  function InitialPrompt(transcribed: string): (p: string)
    ensures |p| == |PromptHead| + |transcribed| + |PromptTail|
    ensures p[..|PromptHead|] == PromptHead
    ensures p[|PromptHead|..|p| - |PromptTail|] == transcribed
    ensures p[|p| - |PromptTail|..] == PromptTail
  {
    var p := PromptHead + transcribed + PromptTail;
    assert p[|PromptHead|..|p| - |PromptTail|] == transcribed;
    p
  }

  /** What one round appends to the prompt for the user's answer `answer`. */
  function AnswerBlock(answer: string): string
  {
    AnswerLead + answer + "\n"
  }

  /** The outcome of one round of the loop. */
  datatype Step<J> =
    | Finished(result: Option<J>)             // the function returns `result`
    | AskAgain(question: string, prompt: string)  // `question` shown at `input`; next round uses `prompt`

  /**
   One round. A reply that passes the completeness check ends the loop with
   the JSON extracted from that same reply; a failing reply asks the user and
   extends the prompt by exactly one answer block, keeping the old prompt as
   its prefix. Failures of the assistant call or of `input()` end the loop
   with `None`.
   */
  function InteractStep<J>(prompt: string, reply: Option<string>, answer: Option<string>,
                           parse: string -> Option<J>): (s: Step<J>)
    ensures s.Finished? && s.result.Some? ==>
              reply.Some? && ValidateResponse(reply.value).valid
    ensures reply.Some? && ValidateResponse(reply.value).valid ==>
              s == Finished(ExtractJson(reply.value, parse))
    ensures s.AskAgain? <==>
              reply.Some? && !ValidateResponse(reply.value).valid && answer.Some?
    ensures s.AskAgain? ==>
              && s.question == reply.value + "\n"
              && prompt <= s.prompt
              && s.prompt[|prompt|..] == AnswerLead + answer.value + "\n"
  {
    match reply
    case None => Finished(None)
    case Some(message) =>
      if ValidateResponse(message).valid then
        Finished(ExtractJson(message, parse))
      else
        match answer
        case None => Finished(None)
        case Some(input) =>
          var prompt' := prompt + AnswerBlock(input);
          assert prompt'[|prompt|..] == AnswerBlock(input);
          AskAgain(message + "\n", prompt')
  }

  /**
   A reply that names the four fields in prose and holds no `{` ends the loop
   with `None`: it passes the completeness check, so the user is never asked,
   and there is no JSON in it to extract.
   */
  lemma ProseOnlyReplyEndsWithNone<J>(prompt: string, p0: string, p1: string, p2: string,
                                      p3: string, p4: string, answer: Option<string>,
                                      parse: string -> Option<J>)
    requires '{' !in p0 + "action" + p1 + "amount" + p2 + "currency" + p3 + "recipient" + p4
    ensures InteractStep(prompt, Some(p0 + "action" + p1 + "amount" + p2 + "currency" + p3 + "recipient" + p4),
                         answer, parse)
            == Finished(None)
  {
    var text := p0 + "action" + p1 + "amount" + p2 + "currency" + p3 + "recipient" + p4;
    ProseMentionCountsAsValid(p0, p1, p2, p3, p4);
    forall i, j
      ensures !MatchesAt(text, i, j)
    {
    }
  }

  /** One round's inputs: the assistant's reply and, if asked, the user's answer. */
  datatype Turn = Turn(reply: Option<string>, answer: Option<string>)

  /** Where a scripted conversation leaves the loop. */
  datatype Outcome<J> =
    | Returned(result: Option<J>, rounds: nat)  // the loop returned after `rounds` assistant calls
    | Waiting(prompt: string)                   // the script ran out; the next call would send `prompt`

  /**
   The loop run over the rounds of `turns`, starting from `prompt`. It returns
   within the scripted rounds, or waits with a prompt that still begins with
   the starting prompt.
   */
  function Run<J>(prompt: string, turns: seq<Turn>, parse: string -> Option<J>): (o: Outcome<J>)
    ensures o.Returned? ==> 1 <= o.rounds <= |turns|
    ensures o.Waiting? ==> prompt <= o.prompt
    decreases |turns|
  {
    if |turns| == 0 then Waiting(prompt)
    else
      match InteractStep(prompt, turns[0].reply, turns[0].answer, parse)
      case Finished(r) => Returned(r, 1)
      case AskAgain(_, prompt') =>
        match Run(prompt', turns[1..], parse)
        case Returned(r, n) => Returned(r, n + 1)
        case Waiting(p) => Waiting(p)
  }

  /**
   `interact_with_assistant` on a transcription, with the rounds scripted. An
   object is returned only from a reply that passed the check, as its
   extraction; while the loop waits, the prompt is the first prompt followed
   by every answer block, so the transcription stays in it verbatim.
   */
  function Interact<J>(transcribed: string, turns: seq<Turn>, parse: string -> Option<J>): (o: Outcome<J>)
    ensures o.Returned? && o.result.Some? ==>
              && 1 <= o.rounds <= |turns|
              && turns[o.rounds - 1].reply.Some?
              && ValidateResponse(turns[o.rounds - 1].reply.value).valid
              && o.result == ExtractJson(turns[o.rounds - 1].reply.value, parse)
    ensures o.Waiting? ==>
              && o.prompt == InitialPrompt(transcribed) + Answers(turns)
              && o.prompt[|PromptHead|..|PromptHead| + |transcribed|] == transcribed
  {
    ReturnOnlyOnValidReply(InitialPrompt(transcribed), turns, parse);
    WaitingKeepsTranscription(transcribed, turns, parse);
    Run(InitialPrompt(transcribed), turns, parse)
  }

  /** While the loop waits, its prompt still holds the transcription verbatim after the head. */
  lemma WaitingKeepsTranscription<J>(transcribed: string, turns: seq<Turn>, parse: string -> Option<J>)
    ensures Run(InitialPrompt(transcribed), turns, parse).Waiting? ==>
              && Run(InitialPrompt(transcribed), turns, parse).prompt == InitialPrompt(transcribed) + Answers(turns)
              && Run(InitialPrompt(transcribed), turns, parse).prompt[|PromptHead|..|PromptHead| + |transcribed|]
                 == transcribed
  {
    PromptAccumulatesAnswers(InitialPrompt(transcribed), turns, parse);
    TranscriptionSurvivesAppends(transcribed, Answers(turns));
  }

  /** Text appended after the first prompt leaves the transcription where it was. */
  lemma TranscriptionSurvivesAppends(transcribed: string, appended: string)
    ensures (InitialPrompt(transcribed) + appended)[|PromptHead|..|PromptHead| + |transcribed|] == transcribed
  {
    var start := InitialPrompt(transcribed);
    assert (start + appended)[|PromptHead|..|PromptHead| + |transcribed|]
        == start[|PromptHead|..|start| - |PromptTail|];
  }

  /** A round that asks the user: the reply failed the check and an answer was given. */
  ghost predicate Asked(t: Turn)
  {
    t.reply.Some? && !ValidateResponse(t.reply.value).valid && t.answer.Some?
  }

  /** Everything the rounds of `turns` append to the prompt, in order. */
  function Answers(turns: seq<Turn>): string
    decreases |turns|
  {
    if |turns| == 0 then []
    else
      (if turns[0].answer.Some? then AnswerBlock(turns[0].answer.value) else [])
      + Answers(turns[1..])
  }

  /**
   A returned object comes from a reply that passed the check, after rounds
   that all failed it and were answered; it is exactly what extraction makes
   of that reply.
   */
  lemma {:induction false} ReturnOnlyOnValidReply<J>(prompt: string, turns: seq<Turn>,
                                                     parse: string -> Option<J>)
    ensures Run(prompt, turns, parse).Returned? && Run(prompt, turns, parse).result.Some? ==>
              var n := Run(prompt, turns, parse).rounds;
              && 1 <= n <= |turns|
              && turns[n - 1].reply.Some?
              && ValidateResponse(turns[n - 1].reply.value).valid
              && Run(prompt, turns, parse).result == ExtractJson(turns[n - 1].reply.value, parse)
              && forall k :: 0 <= k < n - 1 ==> Asked(turns[k])
    decreases |turns|
  {
    if |turns| > 0 {
      match InteractStep(prompt, turns[0].reply, turns[0].answer, parse)
      case Finished(r) =>
      case AskAgain(_, prompt') =>
        ReturnOnlyOnValidReply(prompt', turns[1..], parse);
        var o := Run(prompt', turns[1..], parse);
        if o.Returned? && o.result.Some? {
          forall k | 0 <= k < o.rounds
            ensures Asked(turns[k])
          {
            if k > 0 {
              assert turns[k] == turns[1..][k - 1];
            }
          }
        }
    }
  }

  /** A round that asks again is an asked round, and its prompt gains one answer block. */
  lemma AskAgainAppendsOneBlock<J>(prompt: string, t: Turn, parse: string -> Option<J>)
    requires InteractStep(prompt, t.reply, t.answer, parse).AskAgain?
    ensures Asked(t)
    ensures InteractStep(prompt, t.reply, t.answer, parse).prompt == prompt + AnswerBlock(t.answer.value)
  {
    var p' := InteractStep(prompt, t.reply, t.answer, parse).prompt;
    assert p' == p'[..|prompt|] + p'[|prompt|..];
  }

  /**
   While the loop keeps asking, every round failed the check and was answered,
   and the prompt is the starting prompt followed by one answer block per
   round, in order: nothing is ever dropped from it.
   */
  lemma {:induction false} PromptAccumulatesAnswers<J>(prompt: string, turns: seq<Turn>,
                                                       parse: string -> Option<J>)
    ensures Run(prompt, turns, parse).Waiting? ==>
              && (forall k :: 0 <= k < |turns| ==> Asked(turns[k]))
              && Run(prompt, turns, parse).prompt == prompt + Answers(turns)
              && prompt <= Run(prompt, turns, parse).prompt
    decreases |turns|
  {
    if |turns| > 0 && Run(prompt, turns, parse).Waiting? {
      var s := InteractStep(prompt, turns[0].reply, turns[0].answer, parse);
      assert s.AskAgain?;
      AskAgainAppendsOneBlock(prompt, turns[0], parse);
      var prompt' := s.prompt;
      PromptAccumulatesAnswers(prompt', turns[1..], parse);
      assert Run(prompt, turns, parse) == Run(prompt', turns[1..], parse);
      forall k | 0 <= k < |turns|
        ensures Asked(turns[k])
      {
        if k > 0 {
          assert turns[k] == turns[1..][k - 1];
        }
      }
      var block := AnswerBlock(turns[0].answer.value);
      assert Answers(turns) == block + Answers(turns[1..]);
      assert prompt' + Answers(turns[1..]) == prompt + Answers(turns);
    }
  }
}
