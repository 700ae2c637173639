/**
  The token contracts seen from outside: balances per token and holder, moved by
  `transfer` with the checks of the standard token interface. Balances are i128.
*/
module TokenLedger {
  import opened Sums
  import opened Wrappers

  type Address = string

  const I128_MAX: int := 0x7FFF_FFFF_FFFF_FFFF_FFFF_FFFF_FFFF_FFFF

  datatype Account = Account(token: Address, holder: Address)

  type Balances = map<Account, int>

  datatype TokenError = NegativeAmount | BalanceTooLow | BalanceOverflow

  function Balance(b: Balances, token: Address, holder: Address): int {
    if Account(token, holder) in b then b[Account(token, holder)] else 0
  }

  /** Every balance is a non-negative i128. */
  ghost predicate InRange(b: Balances) {
    forall a :: a in b ==> 0 <= b[a] <= I128_MAX
  }

  function Transfer(b: Balances, token: Address, from: Address, to: Address, amount: int)
    : (r: Result<Balances, TokenError>)
    ensures r.Ok? && InRange(b) ==> InRange(r.value)
  {
    if amount < 0 then Err(NegativeAmount)
    else if Balance(b, token, from) < amount then Err(BalanceTooLow)
    else
      var paid := b[Account(token, from) := Balance(b, token, from) - amount];
      if Balance(paid, token, to) + amount > I128_MAX then Err(BalanceOverflow)
      else Ok(paid[Account(token, to) := Balance(paid, token, to) + amount])
  }

  /** What one successful transfer does to every balance of every token. */
  lemma TransferEffect(b: Balances, token: Address, from: Address, to: Address, amount: int, t: Address,
                       holder: Address)
    requires Transfer(b, token, from, to, amount).Ok?
    ensures Balance(Transfer(b, token, from, to, amount).value, t, holder)
         == Balance(b, t, holder) + (if t == token && holder == to then amount else 0)
                                  - (if t == token && holder == from then amount else 0)
  {
  }

  /** What is moved is taken from one account and credited to the other, and no other balance changes. */
  ghost predicate Moves(b: Balances, now: Balances, token: Address, from: Address, to: Address, amount: int) {
    forall t, holder :: Balance(now, t, holder)
      == Balance(b, t, holder) + (if t == token && holder == to then amount else 0)
                               - (if t == token && holder == from then amount else 0)
  }

  lemma TransferMoves(b: Balances, token: Address, from: Address, to: Address, amount: int)
    requires Transfer(b, token, from, to, amount).Ok?
    ensures Moves(b, Transfer(b, token, from, to, amount).value, token, from, to, amount)
  {
    forall t, holder { TransferEffect(b, token, from, to, amount, t, holder); }
  }

  /** The checks of a transfer. */
  function TransferChecks(b: Balances, token: Address, from: Address, to: Address, amount: int)
    : seq<Check<TokenError>>
  {
    [Check(amount < 0, NegativeAmount),
     Check(Balance(b, token, from) < amount, BalanceTooLow),
     Check(Balance(b, token, to) + (if from == to then 0 else amount) > I128_MAX, BalanceOverflow)]
  }

  lemma TransferDecided(b: Balances, token: Address, from: Address, to: Address, amount: int)
    ensures Decided(TransferChecks(b, token, from, to, amount), Transfer(b, token, from, to, amount))
  {
    var checks := TransferChecks(b, token, from, to, amount);
    assert checks[0].there == (amount < 0) && checks[1].there == (Balance(b, token, from) < amount);
    assert checks[2].fault == BalanceOverflow;
  }

  // ----- the total supply --------------------------------------------------------------------------

  function OfToken(b: Balances, token: Address): Balances {
    map a | a in b && a.token == token :: b[a]
  }

  /** The sum of all balances of a token. */
  ghost function Supply(b: Balances, token: Address): int {
    SumOf(OfToken(b, token))
  }

  lemma SupplySet(b: Balances, token: Address, holder: Address, v: int, t: Address)
    ensures Supply(b[Account(token, holder) := v], t)
         == Supply(b, t) + if t == token then v - Balance(b, token, holder) else 0
  {
    var a, b' := Account(token, holder), b[Account(token, holder) := v];
    if t == token {
      assert OfToken(b', t) == OfToken(b, t)[a := v];
      SumSet(OfToken(b, t), a, v);
    } else {
      assert OfToken(b', t) == OfToken(b, t);
    }
  }

  lemma BalanceAtMostSupply(b: Balances, token: Address, holder: Address)
    requires NoneNegative(b)
    ensures Balance(b, token, holder) <= Supply(b, token)
  {
    ShareAtMostSum(OfToken(b, token), Account(token, holder));
  }

  /** A transfer moves money and makes none. */
  lemma TransferKeepsSupply(b: Balances, token: Address, from: Address, to: Address, amount: int, t: Address)
    requires Transfer(b, token, from, to, amount).Ok?
    ensures Supply(Transfer(b, token, from, to, amount).value, t) == Supply(b, t)
  {
    var paid := b[Account(token, from) := Balance(b, token, from) - amount];
    SupplySet(b, token, from, Balance(b, token, from) - amount, t);
    SupplySet(paid, token, to, Balance(paid, token, to) + amount, t);
  }

  /** Two accounts together hold at most the supply. */
  lemma TwoBalances(b: Balances, token: Address, x: Address, y: Address)
    requires NoneNegative(b) && x != y
    ensures Balance(b, token, x) + Balance(b, token, y) <= Supply(b, token)
  {
    var rest := b[Account(token, x) := 0];
    SupplySet(b, token, x, 0, token);
    BalanceAtMostSupply(rest, token, y);
  }

  /** A token whose supply fits in i128 can always be paid out of an account that holds it. */
  lemma CoveredTransferSucceeds(b: Balances, token: Address, from: Address, to: Address, amount: int)
    requires NoneNegative(b) && 0 <= amount <= Balance(b, token, from) && Supply(b, token) <= I128_MAX
    ensures Transfer(b, token, from, to, amount).Ok?
  {
    if from != to {
      TwoBalances(b, token, from, to);
    } else {
      BalanceAtMostSupply(b, token, to);
    }
  }

  /** The ledgers of all tokens, updated in place. */
  class TokenHost {
    var balances: Balances

    constructor (b: Balances)
      ensures balances == b
    {
      balances := b;
    }

    method DoTransfer(token: Address, from: Address, to: Address, amount: int) returns (r: Result<(), TokenError>)
      modifies this
      ensures r.Ok? <==> Transfer(old(balances), token, from, to, amount).Ok?
      ensures r.Ok? ==> balances == Transfer(old(balances), token, from, to, amount).value
      ensures r.Err? ==> balances == old(balances) && r.error == Transfer(old(balances), token, from, to, amount).error
    {
      var result := Transfer(balances, token, from, to, amount);
      match result
      case Ok(b) => balances := b; r := Ok(());
      case Err(e) => r := Err(e);
    }
  }
}
