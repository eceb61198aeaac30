/** The transaction record a block carries (src/transaction.rs). */
module Transactions {
  import opened Wrappers

  /** A transfer between two optional parties. Every field is private and the record has
      no setters, so a value built by `New` is never changed afterwards; an immutable
      datatype captures exactly that. Amounts and fees are exact reals instead of `f64`;
      the timestamp is seconds since the Unix epoch. */
  datatype Transaction = Transaction(
    sender: Option<string>,
    recipient: Option<string>,
    amount: real,
    timestamp: nat,
    signature: string,
    transactionId: Option<string>,
    fee: Option<real>,
    metadata: Option<string>
  )

  /** `Transaction::new`: the caller's parties, amount and signature are kept verbatim,
      the clock reading `now` becomes the timestamp, and the three optional extras start
      out absent. No validation happens (a negative amount is accepted). */
  function New(sender: Option<string>, recipient: Option<string>, amount: real,
               signature: string, now: nat): (t: Transaction)
    ensures t.sender == sender && t.recipient == recipient
    ensures t.amount == amount && t.signature == signature
    ensures t.timestamp == now
    ensures t.transactionId.None? && t.fee.None? && t.metadata.None?
  {
    Transaction(sender, recipient, amount, now, signature, None, None, None)
  }

  /** Construction loses nothing: two transactions built by `New` are equal exactly when
      they were built from the same arguments, and every transaction whose optional extras
      are absent is the result of some call to `New`. */
  lemma NewIsLossless(s1: Option<string>, r1: Option<string>, a1: real, g1: string, n1: nat,
                      s2: Option<string>, r2: Option<string>, a2: real, g2: string, n2: nat)
    ensures New(s1, r1, a1, g1, n1) == New(s2, r2, a2, g2, n2)
        <==> s1 == s2 && r1 == r2 && a1 == a2 && g1 == g2 && n1 == n2
  {
  }

  lemma NewCoversUnannotated(t: Transaction)
    requires t.transactionId.None? && t.fee.None? && t.metadata.None?
    ensures t == New(t.sender, t.recipient, t.amount, t.signature, t.timestamp)
  {
  }
}
