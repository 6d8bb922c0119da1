/**
 The Telegram command handlers of bot/handlers.py, `status` and `send`, as
 pure decisions over what their collaborators return. The MongoDB lookup is
 an input (`None` when `get_user_wallet` finds nothing or fails), the faucet
 wallet and the outcome of the ledger submission are inputs, and the address
 xrpl derives from a seed is the function parameter `addressOf`. Each handler
 returns the effects it causes, in order, and whether it ends by raising.
 */
module Handlers {
  import opened Common
  import opened Effects

  /** A document of the wallet collection, as far as the handlers read it. */
  datatype WalletRecord = WalletRecord(username: Option<string>, privateKey: string)

  /** The wallet collection, keyed by Telegram user id. */
  type Store = map<int, WalletRecord>

  /** `get_user_wallet`: the record stored for `userId`, if any. */
  function Lookup(store: Store, userId: int): Option<WalletRecord>
  {
    if userId in store then Some(store[userId]) else None
  }

  /**
   `save_user_wallet`: an upsert keyed by user id that sets the username and
   the private key; every other user's record is left alone.
   */
  function SaveWallet(store: Store, userId: int, username: Option<string>, privateKey: string): (s: Store)
    ensures s.Keys == store.Keys + {userId}
    ensures Lookup(s, userId) == Some(WalletRecord(username, privateKey))
    ensures forall u :: u in store && u != userId ==> s[u] == store[u]
  {
    store[userId := WalletRecord(username, privateKey)]
  }

  /** The store after the writes among `events`, in order; other events write nothing. */
  function ApplyWrites(store: Store, events: seq<Event>): Store
    decreases |events|
  {
    if |events| == 0 then store
    else
      var store' := match events[0]
                    case Save(u, n, k) => SaveWallet(store, u, n, k)
                    case _ => store;
      ApplyWrites(store', events[1..])
  }

  /** The effects of one handler call, and whether it ended by raising. */
  datatype HandlerRun = HandlerRun(events: seq<Event>, raised: bool)

  // ----- send -----

  /** The one amount `send` transfers, in XRP. */
  const SendAmount: int := 1

  /** The one account `send` pays. */
  const Destination: string := "raKQpxX2HC9RrVTX2gpyfun2f4QWnk5kez"

  /** The chat that is told about every transfer the handler counts as successful. */
  const NotifyChat: int := 123456789

  const NoWalletText: string := "No wallet found for your user ID."
  const FailurePrefix: string := "Submit failed:"
  const SuccessText: string := "XRP sent successfully!"
  const NotifyText: string := "XRP sent successfully to another account!"

  /** What `send_xrp` gives back: an error string, or the ledger's response object. */
  datatype SendResponse = Text(text: string) | LedgerResponse

  /** How the `send_xrp` call ends: it returns a response, or an exception escapes it. */
  datatype SubmitCall = Returned(response: SendResponse) | Raised

  /** How the ledger submission inside `send_xrp` ends. */
  datatype LedgerOutcome =
    | Validated                            // `submit_and_wait` returns a response
    | SubmissionFailed(reason: string)     // it raises `XRPLReliableSubmissionException`
    | OtherError                           // it raises anything else

  /**
   `send_xrp` (bot/wallet.py): a reliable-submission failure comes back as a
   string made of the failure prefix, a space and the reason; any other
   exception escapes; a validated submission returns the ledger's response.
   */
  function SendXrp(outcome: LedgerOutcome): (c: SubmitCall)
    ensures c.Raised? <==> outcome.OtherError?
    ensures c.Returned? && c.response.Text? ==> outcome.SubmissionFailed? && IsFailureText(c.response)
    ensures outcome.SubmissionFailed? ==> c == Returned(Text(FailurePrefix + " " + outcome.reason))
    ensures outcome.Validated? ==> c == Returned(LedgerResponse)
  {
    match outcome
    case Validated => Returned(LedgerResponse)
    case SubmissionFailed(reason) =>
      var text := FailurePrefix + " " + reason;
      assert text[..|FailurePrefix|] == FailurePrefix;
      Returned(Text(text))
    case OtherError => Raised
  }

  /** The response is the error string `send` forwards: a string with the failure prefix. */
  predicate IsFailureText(response: SendResponse)
  {
    response.Text? && FailurePrefix <= response.text
  }

  /**
   `send`: without a wallet record, the single no-wallet message and nothing
   else. With one, exactly one transfer of 1 XRP from the stored seed to the
   fixed destination; then the failure string is forwarded verbatim, or else
   (for a non-string response too, and a string without the prefix) the
   success message goes to the user and the notification to the fixed chat,
   in that order. An exception from `send_xrp` ends the handler after the
   transfer with no message.
   */
  function Send(chat: int, record: Option<WalletRecord>, call: SubmitCall): (r: HandlerRun)
    ensures SubmitsTransfer(r.events) <==> record.Some?
    ensures record.None? ==> r.events == [Reply(chat, NoWalletText)] && !r.raised
    ensures record.Some? ==>
              |r.events| >= 1 && r.events[0] == Submit(record.value.privateKey, SendAmount, Destination)
              && forall k :: 1 <= k < |r.events| ==> r.events[k].Reply?
    ensures r.raised <==> record.Some? && call.Raised?
    ensures record.Some? && call.Raised? ==>
              r.events == [Submit(record.value.privateKey, SendAmount, Destination)]
    ensures record.Some? && call.Returned? && IsFailureText(call.response) ==>
              r.events[1..] == [Reply(chat, call.response.text)]
    ensures record.Some? && call.Returned? && !IsFailureText(call.response) ==>
              r.events[1..] == [Reply(chat, SuccessText), Reply(NotifyChat, NotifyText)]
  {
    match record
    case None => HandlerRun([Reply(chat, NoWalletText)], false)
    case Some(rec) =>
      var transfer := Submit(rec.privateKey, SendAmount, Destination);
      assert [transfer][0].Submit?;
      match call
      case Raised => HandlerRun([transfer], true)
      case Returned(response) =>
        if IsFailureText(response) then
          var events := [transfer, Reply(chat, response.text)];
          assert events[0].Submit?;
          HandlerRun(events, false)
        else
          var events := [transfer, Reply(chat, SuccessText), Reply(NotifyChat, NotifyText)];
          assert events[0].Submit?;
          HandlerRun(events, false)
  }

  /**
   End to end through `send_xrp`: the notification chat hears of a transfer
   exactly when the ledger validated it, and a reliable-submission failure
   reaches the user with its reason.
   */
  lemma NotifiedIffValidated(chat: int, rec: WalletRecord, outcome: LedgerOutcome)
    ensures Notifies(Send(chat, Some(rec), SendXrp(outcome)).events) <==> outcome.Validated?
    ensures outcome.SubmissionFailed? ==>
              Send(chat, Some(rec), SendXrp(outcome)).events
              == [Submit(rec.privateKey, SendAmount, Destination),
                  Reply(chat, FailurePrefix + " " + outcome.reason)]
  {
    var r := Send(chat, Some(rec), SendXrp(outcome));
    if outcome.Validated? {
      assert r.events[2] == Reply(NotifyChat, NotifyText);
    } else if outcome.SubmissionFailed? {
      var text := FailurePrefix + " " + outcome.reason;
      assert text[0] == 'S' && NotifyText[0] == 'X';
      assert r.events[1] != Reply(NotifyChat, NotifyText);
    }
  }

  /** Whether `events` include the notification to the fixed chat. */
  predicate Notifies(events: seq<Event>)
  {
    exists k :: 0 <= k < |events| && events[k] == Reply(NotifyChat, NotifyText)
  }

  // ----- status -----

  /**
   `status` as written. With a stored record the wallet is rebuilt from its
   private key and its address is sent back; nothing is saved. Without one,
   line 27 names `client`, which the module never defines, so the handler
   raises a `NameError` before generating, saving or replying anything.
   */
  function StatusAsWritten(chat: int, record: Option<WalletRecord>,
                           addressOf: string -> string): (r: HandlerRun)
    ensures record.None? ==> r.raised && |r.events| == 0
    ensures record.Some? ==>
              !r.raised && r.events == [AddressReply(chat, addressOf(record.value.privateKey))]
  {
    match record
    case Some(rec) => HandlerRun([AddressReply(chat, addressOf(rec.privateKey))], false)
    case None => HandlerRun([], true)
  }

  /** As written, a user without a record never gets a wallet: the store is unchanged. */
  lemma StatusAsWrittenNeverCreates(store: Store, chat: int, userId: int, addressOf: string -> string)
    requires userId !in store
    ensures ApplyWrites(store, StatusAsWritten(chat, Lookup(store, userId), addressOf).events) == store
    ensures Lookup(ApplyWrites(store, StatusAsWritten(chat, Lookup(store, userId), addressOf).events),
                   userId).None?
  {
  }

  /**
   `status` with the faucet call working, as evidently intended: a user
   without a record gets the freshly generated wallet, saved as the triple
   of user id, username and seed, and is told its address; a stored record is
   reused, nothing is saved, and the address comes from its private key.
   */
  function Status(chat: int, userId: int, username: Option<string>, record: Option<WalletRecord>,
                  generated: Wallet, addressOf: string -> string): (r: HandlerRun)
    ensures !r.raised
    ensures SavesWallet(r.events) <==> record.None?
    ensures record.None? ==>
              r.events == [Save(userId, username, generated.seed), AddressReply(chat, generated.address)]
    ensures record.Some? ==> r.events == [AddressReply(chat, addressOf(record.value.privateKey))]
  {
    match record
    case Some(rec) => HandlerRun([AddressReply(chat, addressOf(rec.privateKey))], false)
    case None =>
      var events := [Save(userId, username, generated.seed), AddressReply(chat, generated.address)];
      assert events[0].Save?;
      HandlerRun(events, false)
  }

  /**
   Get-or-create through the store: after `status` the user has a record, a
   second `status` saves nothing and reports the same address, and the wallet
   `send` then spends from is the one whose address `status` reported.
   */
  lemma StatusThenSend(store: Store, chat: int, userId: int, username: Option<string>,
                       generated: Wallet, addressOf: string -> string, call: SubmitCall)
    requires generated.address == addressOf(generated.seed)
    ensures var first := Status(chat, userId, username, Lookup(store, userId), generated, addressOf);
            var store' := ApplyWrites(store, first.events);
            var second := Status(chat, userId, username, Lookup(store', userId), generated, addressOf);
            var spent := Send(chat, Lookup(store', userId), call);
            && Lookup(store', userId).Some?
            && (forall u :: u != userId ==> Lookup(store', u) == Lookup(store, u))
            && !SavesWallet(second.events)
            && second.events[|second.events| - 1] == first.events[|first.events| - 1]
            && spent.events[0].Submit?
            && first.events[|first.events| - 1] == AddressReply(chat, addressOf(spent.events[0].seed))
  {
    var first := Status(chat, userId, username, Lookup(store, userId), generated, addressOf);
    var store' := ApplyWrites(store, first.events);
    if userId in store {
      assert first.events[1..] == [];
      assert store' == ApplyWrites(store, first.events[1..]);
    } else {
      var s1 := SaveWallet(store, userId, username, generated.seed);
      assert first.events[1..][1..] == [];
      assert ApplyWrites(s1, first.events[1..]) == ApplyWrites(s1, first.events[1..][1..]);
      assert store' == ApplyWrites(s1, first.events[1..]);
    }
  }
}
