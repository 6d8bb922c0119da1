/**
 The `status` handler of bot/server.py: get-or-create over the in-memory
 `user_wallets` dictionary, keyed by Telegram user id. The faucet wallet is an
 input (`generated`), consulted only when the user has no wallet yet; the
 reply is returned as an event instead of being sent.
 */
module Server {
  import opened Effects

  /** The in-memory `user_wallets` dictionary. */
  type Wallets = map<int, Wallet>

  /** The dictionary after one `status` call, and the message it sends. */
  datatype StatusResult = StatusResult(wallets: Wallets, reply: Event)

  /**
   `status`: an existing wallet is reused and never replaced; a wallet is
   stored only for a user who had none, and then it is the generated one;
   no other user's entry changes; the reply carries the address of the
   wallet now stored for the user.
   */
  function Status(wallets: Wallets, userId: int, chat: int, generated: Wallet): (r: StatusResult)
    ensures r.wallets.Keys == wallets.Keys + {userId}
    ensures userId in wallets ==> r.wallets[userId] == wallets[userId]
    ensures userId !in wallets ==> r.wallets[userId] == generated
    ensures forall u :: u in wallets && u != userId ==> r.wallets[u] == wallets[u]
    ensures r.reply == AddressReply(chat, r.wallets[userId].address)
  {
    if userId in wallets then
      StatusResult(wallets, AddressReply(chat, wallets[userId].address))
    else
      var wallets' := wallets[userId := generated];
      StatusResult(wallets', AddressReply(chat, generated.address))
  }

  /** A second call changes nothing and repeats the first call's reply. */
  lemma StatusIdempotent(wallets: Wallets, userId: int, chat: int, generated: Wallet, generated': Wallet)
    ensures var first := Status(wallets, userId, chat, generated);
            Status(first.wallets, userId, chat, generated') == first
  {
  }

  /** For a user who already has a wallet, the faucet's wallet plays no part. */
  lemma GeneratedUnusedWhenPresent(wallets: Wallets, userId: int, chat: int, g1: Wallet, g2: Wallet)
    requires userId in wallets
    ensures Status(wallets, userId, chat, g1) == Status(wallets, userId, chat, g2)
  {
  }

  /** Calls for two different users touch disjoint entries, so their order does not matter. */
  lemma StatusCallsCommute(wallets: Wallets, u1: int, u2: int, c1: int, c2: int, g1: Wallet, g2: Wallet)
    requires u1 != u2
    ensures var a := Status(Status(wallets, u1, c1, g1).wallets, u2, c2, g2);
            var b := Status(Status(wallets, u2, c2, g2).wallets, u1, c1, g1);
            a.wallets == b.wallets
  {
  }
}
