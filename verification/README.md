# PayPaladin core: payment-intent checking and Telegram wallet handlers

This project models the decision logic of the PayPaladin prototype. Users
describe an XRP payment in words. An assistant turns the words into a JSON
payment object. A Telegram bot keeps one test-net wallet per user and sends
XRP from it. The model covers three parts.

- **Reply checking and JSON extraction**
  (`assistant/assistant_interaction.py`). `validate_response` tests whether
  each of `action`, `amount`, `currency` and `recipient` occurs as a
  *substring* of the assistant's reply. `extract_json_from_response` takes the
  match of the regular expression `{.*?}` (DOTALL) and hands it to a JSON
  parser. The parser is a function parameter that returns `None` where
  `json.loads` raises.
- **The clarification loop** of `interact_with_assistant`. The model has one
  round (`InteractStep`) and a run over a scripted list of rounds (`Run`).
  Each round's assistant reply and user answer are inputs. A `None` reply
  stands for the chat call raising an `Exception` or returning no content. A
  `None` answer stands for `input()` raising an `Exception`, such as
  `EOFError`.
- **The Telegram handlers** `send` and `status` (`bot/handlers.py`) and the
  in-memory `status` of `bot/server.py`. Each handler is a pure function.
  Its inputs are what the collaborators return: the wallet lookup, the faucet
  wallet, the ledger outcome, and the seed-to-address derivation. It returns
  the list of effects it causes, in order: messages, transfer submissions and
  store writes. It also says whether it ended by raising.

Modules: `Common` (optional values, substring search), `Validation`,
`Extraction`, `Interaction`, `Effects` (wallets, handler effects),
`Handlers`, `Server`.

`validate_response` tests each field name as a substring, so a reply that
only mentions the names in prose passes (`ProseMentionCountsAsValid`,
`ProseOnlyReplyEndsWithNone`).

## Model

| member | source | states |
|---|---|---|
| Common.ContainsIffOccurs | assistant/assistant_interaction.py:52 | Python's `key in response` scan is true exactly when the key occurs at some position of the text |
| Validation.CheckKeysIsFilter | assistant/assistant_interaction.py:48-56 | the loop over the required keys appends exactly the absent keys, in list order, and clears `valid` iff it appends any |
| Validation.MissingFromMembers | assistant/assistant_interaction.py:51-54 | a key is reported missing iff it is a required key that does not occur in the text |
| Validation.MissingFromNoDuplicates | assistant/assistant_interaction.py:48-54 | the missing list has no repeated key, because the required list has none |
| Validation.ValidateResponse | assistant/assistant_interaction.py:37-56 | `valid` iff all four names occur as substrings; `valid` iff `missing_info` is empty; `missing_info` holds exactly the absent names, each once |
| Validation.MissingInfoInFixedOrder | assistant/assistant_interaction.py:48-54 | `missing_info` is the absent names in the fixed order action, amount, currency, recipient |
| Validation.ProseMentionCountsAsValid | assistant/assistant_interaction.py:51-55 | any text that merely names the four fields, whatever surrounds them, is judged valid |
| Extraction.IndexFrom | assistant/assistant_interaction.py:23 | the scan returns the first position holding the character, or the length if there is none |
| Extraction.FindSpan | assistant/assistant_interaction.py:23-25 | there is no match iff no `{` is followed later by a `}`; otherwise the bounds are the leftmost, shortest match of `{.*?}` |
| Extraction.JsonSpan | assistant/assistant_interaction.py:23-26 | the matched text starts with `{`, ends with its only `}`, exists iff some `{` precedes some `}`, and is the regex search result |
| Extraction.ExtractJson | assistant/assistant_interaction.py:10-35 | no match gives `None`; otherwise the result is exactly the parser's verdict on the matched span, so a parse failure gives `None` |
| Extraction.SpanOfSplice | assistant/assistant_interaction.py:23-26 | with no `{` before the object and no `}` inside it, the span is the braces and the body, whatever follows |
| Extraction.MultiLineObjectIsFound | assistant/assistant_interaction.py:23 | newlines inside the braces do not stop the match (DOTALL) |
| Extraction.NestedObjectIsCut | assistant/assistant_interaction.py:23-28 | a nested object is cut at its first inner `}`; a parser that rejects the cut text makes extraction return `None` |
| Interaction.InitialPrompt | assistant/assistant_interaction.py:74-87 | the transcribed text sits verbatim between the fixed head and tail of the first prompt |
| Interaction.InteractStep | assistant/assistant_interaction.py:89-117 | a round returns an object only for a reply that passes the check, and then returns its extraction; it asks again iff the reply fails and an answer is given; asking shows the reply and appends exactly one answer block after the unchanged old prompt; call and input failures return `None` |
| Interaction.Run | assistant/assistant_interaction.py:89-113 | a run that returns does so within the scripted rounds; a run still waiting keeps the starting prompt as a prefix of its prompt |
| Interaction.Interact | assistant/assistant_interaction.py:58-117 | a returned object comes from a reply that passed the check; while waiting, the prompt is the first prompt followed by every answer block, so the transcription stays verbatim in every later prompt |
| Interaction.WaitingKeepsTranscription | assistant/assistant_interaction.py:74-113 | a loop still waiting after the scripted rounds holds the first prompt followed by each answer block, so the transcribed text stays verbatim right after the fixed head |
| Interaction.ProseOnlyReplyEndsWithNone | assistant/assistant_interaction.py:102-106 | a reply that names the fields in prose and has no `{` ends the loop with `None` instead of asking the user |
| Interaction.AskAgainAppendsOneBlock | assistant/assistant_interaction.py:107-113 | a round that asks again had a failing, answered reply, and its new prompt is the old one plus one answer block |
| Interaction.ReturnOnlyOnValidReply | assistant/assistant_interaction.py:89-113 | an object returned after n rounds comes from the n-th reply, which passed the check; every earlier round failed the check and was answered |
| Interaction.PromptAccumulatesAnswers | assistant/assistant_interaction.py:107-113 | while the loop keeps asking, every round was answered and the prompt is the start prompt followed by each answer block, in order |
| Effects.AddressReply | bot/handlers.py:32-35 | the status reply goes to the user's chat and is "Your wallet address is: " followed by the address |
| Handlers.SaveWallet | bot/database.py:17-25 | the upsert stores the username and key under the user id and leaves every other record alone |
| Handlers.SendXrp | bot/wallet.py:11-22 | a reliable-submission failure returns "Submit failed: " plus the reason, and every string it returns carries that prefix; other exceptions escape; a validated submission returns the ledger response |
| Handlers.Send | bot/handlers.py:37-63 | a transfer is submitted iff a record exists; without one, only the no-wallet message; the transfer uses the stored key, amount 1 and the fixed destination; a prefixed failure string is forwarded verbatim and nothing else is sent; any other response sends the success message, then the notification to chat 123456789 |
| Handlers.NotifiedIffValidated | bot/handlers.py:55-63 | through `send_xrp`, the notification chat is told iff the ledger validated the transfer; a failure reaches the user with its reason |
| Handlers.StatusAsWritten | bot/handlers.py:15-35 | with a record, the address is rebuilt from the stored key and nothing is saved; without one, the handler raises before any effect |
| Handlers.StatusAsWrittenNeverCreates | bot/handlers.py:23-29 | as written, a user with no record is left without one |
| Handlers.Status | bot/handlers.py:15-35 | a save happens iff there was no record; it saves the user id, username and generated seed, then replies with the generated address; an existing record is reused for the reply |
| Handlers.StatusThenSend | bot/handlers.py:15-46 | after `status` the user has a record and no other user's record changed; a second `status` saves nothing and gives the same reply; `send` then spends from the wallet whose address `status` reported |
| Server.Status | bot/server.py:54-72 | afterwards the user id is a key; an existing wallet is kept; the generated wallet is stored only for an absent user; other entries are unchanged; the reply carries the stored wallet's address |
| Server.StatusIdempotent | bot/server.py:58-66 | a second call leaves the dictionary as it is and repeats the reply |
| Server.GeneratedUnusedWhenPresent | bot/server.py:58-59 | for a user who already has a wallet, the faucet wallet plays no part |
| Server.StatusCallsCommute | bot/server.py:66 | calls for two different users give the same dictionary in either order |

## Findings

| source | as written | input that shows it | evidently intended | confidence | as-written member | corrected member |
|---|---|---|---|---|---|---|
| bot/handlers.py:27 | the faucet call names `client`, which `bot/handlers.py` never imports or defines, so it raises `NameError` | `/status` from a user with no stored wallet record | generate a faucet wallet, save it with the user id and username, and reply with its address | high; not executed | Handlers.StatusAsWritten (with Handlers.StatusAsWrittenNeverCreates) | Handlers.Status (used by Handlers.StatusThenSend) |

## Left out

- OpenAI chat calls and thread management are network clients. The assistant's reply is an input to each round.
- The console `input()` and all `print` calls are console I/O. The user's answer is an input, and printing is dropped.
- The internals of `json.loads` are not modelled. The parser is the parameter `parse`. Non-object JSON cannot occur, because the span starts with `{` and ends with `}`.
- Interaction.Run: `interact_with_assistant` loops until it returns (`while True`). The model runs over a finite script of rounds and reports `Waiting` with the next prompt when the script ends.
- Whisper transcription (`assistant/audio_processing.py`) is a foreign model call.
- MongoDB persistence (`bot/database.py`) is a thin wrapper over an unseen library. The store is a map. A failed lookup is a missing record. The handler never sees a save failure, which is caught and printed. The model always applies the save.
- xrpl wallet generation and address derivation are foreign code. The faucet wallet is the input `generated`, and the address of a seed is the parameter `addressOf`. A faucet failure is not modelled. Neither is `Wallet.from_seed` raising on a malformed key.
- Handlers.Send: the seed passed to `send_xrp` is the stored private key. This relies on `Wallet.from_seed(k).seed` giving back `k`, which is xrpl behaviour and is not modelled.
- Server.Status: two `/status` calls from one user that overlap at the faucet `await` can both find the user absent. The later one then overwrites the earlier wallet. The model treats calls one at a time, as a sequential reading of the handler gives them.
- The `xrp_to_drops(int(amount))` conversion and the payment transaction itself are not modelled. The model records the amount 1 that `send` passes.
- The `start` and `echo` handlers are not modelled. They are fixed one-message replies outside the payment logic.
- Flask, webhook setup, handler registration and the thread-pool and asyncio offloading are plumbing and concurrency. `bot/__init__.py` imports a `handle_voice` that `bot/handlers.py` never defines; that import path is not part of this model.
- The code has no session state machine, confirmation step, retries or idempotency tokens, so the model has none.
- A `KeyboardInterrupt` raised by `input()` or by the chat call is not modelled. It is a `BaseException`, so `interact_with_assistant`'s `except Exception` clause does not catch it and it leaves the function instead of returning `None`.
