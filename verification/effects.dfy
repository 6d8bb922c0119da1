/**
 What the Telegram handlers see of the outside world: wallets as the xrpl
 library hands them over, and the effects a handler causes, recorded in the
 order it causes them instead of being performed.
 */
module Effects {
  import opened Common

  /** An xrpl wallet as the handlers use it: its secret seed and its ledger address. */
  datatype Wallet = Wallet(seed: string, address: string)

  /** One outward effect of a handler. */
  datatype Event =
    | Reply(chat: int, text: string)                                  // `context.bot.send_message`
    | Submit(seed: string, amount: int, destination: string)          // `send_xrp`, run in a thread pool
    | Save(userId: int, username: Option<string>, privateKey: string) // `save_user_wallet`; a username may be unset

  /** The text both `status` handlers open their reply with. */
  const AddressLead: string := "Your wallet address is: "

  /** The reply `status` sends: the lead text followed by the wallet address. */
  function AddressReply(chat: int, address: string): (e: Event)
    ensures e.Reply? && e.chat == chat
    ensures |e.text| == |AddressLead| + |address|
    ensures AddressLead <= e.text && e.text[|AddressLead|..] == address
  {
    var text := AddressLead + address;
    assert text[|AddressLead|..] == address;
    Reply(chat, text)
  }

  /** Whether any event of `events` submits a transfer. */
  predicate SubmitsTransfer(events: seq<Event>)
  {
    exists k :: 0 <= k < |events| && events[k].Submit?
  }

  /** Whether any event of `events` saves a wallet record. */
  predicate SavesWallet(events: seq<Event>)
  {
    exists k :: 0 <= k < |events| && events[k].Save?
  }
}
