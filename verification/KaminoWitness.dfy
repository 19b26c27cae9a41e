/** A lender that meets the assumptions of KaminoAdapter, and a deposit and a withdrawal that succeed on it. */
module KaminoWitness {
  import opened KaminoAdapter
  import opened Wrappers

  /** Takes deposits into one token account of its own, and uses the first slot of an obligation. */
  function VaultDeposit(authority: Key, vault: nat, s: State, c: Cpi): Option<State> {
    if c.account >= |s.tokens| || vault >= |s.tokens| || c.account == vault || c.obligation !in s.obligations then None
    else
      var o := s.obligations[c.obligation];
      if s.tokens[c.account].owner != c.owner || s.tokens[vault].owner != authority || o.owner != c.owner then None
      else if c.reserve !in o.slots && (o.slots == [] || o.slots[0] != DEFAULT_KEY) then None
      else
        match Transfer(s.tokens, c.account, vault, c.owner, c.amount)
        case None => None
        case Some(tokens) =>
          var slots := if c.reserve in o.slots then o.slots else o.slots[0 := c.reserve];
          Some(s.(tokens := tokens, obligations := s.obligations[c.obligation := o.(slots := slots)]))
  }

  /** Pays the amount back and leaves the slot. */
  function VaultWithdraw(authority: Key, vault: nat, s: State, c: Cpi): Option<State> {
    if c.account >= |s.tokens| || vault >= |s.tokens| || c.account == vault || c.obligation !in s.obligations then None
    else if s.tokens[c.account].owner != c.owner || s.tokens[vault].owner != authority
            || s.obligations[c.obligation].owner != c.owner then None
    else
      match Transfer(s.tokens, vault, c.account, authority, c.amount)
      case None => None
      case Some(tokens) => Some(s.(tokens := tokens))
  }

  function VaultLender(authority: Key, vault: nat): Lender {
    Lender(authority, (s, k) => true, (s, r) => true,
           (s, c) => VaultDeposit(authority, vault, s, c), (s, c) => VaultWithdraw(authority, vault, s, c))
  }

  lemma DepositHonest(env: Env, vault: nat, s: State, c: Cpi)
    requires env.lender == VaultLender(env.lender.authority, vault)
    requires VaultDeposit(env.lender.authority, vault, s, c).Some?
    ensures DepositIsHonest(env, s, c, VaultDeposit(env.lender.authority, vault, s, c).value)
  {
    TransferKeepsAccounts(env, s, c.account, vault, c.owner, c.amount);
  }

  lemma WithdrawHonest(env: Env, vault: nat, s: State, c: Cpi)
    requires env.lender == VaultLender(env.lender.authority, vault)
    requires VaultWithdraw(env.lender.authority, vault, s, c).Some?
    ensures WithdrawIsHonest(env, s, c, VaultWithdraw(env.lender.authority, vault, s, c).value)
  {
    TransferKeepsAccounts(env, s, vault, c.account, env.lender.authority, c.amount);
  }

  /** The assumptions on the lender can be met. */
  lemma VaultLenderIsHonest(env: Env, vault: nat)
    requires env.lender == VaultLender(env.lender.authority, vault)
    ensures Honest(env)
  {
    forall s, c {:trigger env.lender.deposit(s, c)} | env.lender.deposit(s, c).Some?
      ensures DepositIsHonest(env, s, c, env.lender.deposit(s, c).value)
    {
      DepositHonest(env, vault, s, c);
    }
    forall s, c {:trigger env.lender.withdraw(s, c)} | env.lender.withdraw(s, c).Some?
      ensures WithdrawIsHonest(env, s, c, env.lender.withdraw(s, c).value)
    {
      WithdrawHonest(env, vault, s, c);
    }
  }

  const ADAPTER: Key := 1
  const LENDER: Key := 2
  const OWNER: Key := 3
  const POOL: Key := 4
  const MINT: Key := 5

  /** adapter_in, adapter_out, the owner's account, the lender's vault and the pool's, all of one mint. */
  function Accounts(amount: nat): Ledger {
    [TokenAccount(MINT, ADAPTER, amount), TokenAccount(MINT, ADAPTER, 0), TokenAccount(MINT, OWNER, 0),
     TokenAccount(MINT, LENDER, 0), TokenAccount(MINT, POOL, 0)]
  }

  function CallOf(amount: nat, action: Action): Call {
    Call(amount, if action.Withdraw? then amount else 0, Some((0, action)), 4, 4, 0, 1, true, 6, MINT, OWNER, 2, 7, 8, Some(9))
  }

  const SHARED := Env(ADAPTER, (h: Key, m: Key) => OWNER, {}, VaultLender(LENDER, 3))

  lemma DepositGoesThrough(s: State, amount: nat)
    requires amount > 0
    requires s == State(Accounts(amount), map[], {}, {}, [])
    ensures CallError(SHARED, s, CallOf(amount, Deposit(amount))) == None
  {
    var c := CallOf(amount, Deposit(amount));
    var ready := ReadyState(s, c);
    ReadyStateIs(s, c);
    FreshIsEmpty(OWNER);
    assert ready.obligations[8] == FreshObligation(OWNER) && Forwarded(FreshObligation(OWNER).slots, 6) == [];
    assert Refreshes(SHARED, ready, c);
    var hopped := Hopped(SHARED, s, c);
    assert hopped.Some? && hopped.value.tokens[2] == TokenAccount(MINT, OWNER, amount);
    assert hopped.value.tokens[3] == TokenAccount(MINT, LENDER, 0);
    assert VaultDeposit(LENDER, 3, hopped.value, CpiOf(c)).Some?;
  }

  lemma {:induction false} TotalOfNone(tokens: Ledger, mint: Key)
    requires forall j {:trigger tokens[j]} :: 0 <= j < |tokens| ==> tokens[j].amount == 0
    ensures Total(tokens, mint) == 0
  {
    if tokens != [] {
      TotalOfNone(tokens[..|tokens| - 1], mint);
    }
  }

  lemma {:induction false} TotalOfOne(tokens: Ledger, mint: Key, i: nat)
    requires i < |tokens| && tokens[i].mint == mint
    requires forall j {:trigger tokens[j]} :: 0 <= j < |tokens| && j != i ==> tokens[j].amount == 0
    ensures Total(tokens, mint) == tokens[i].amount
  {
    if i == |tokens| - 1 {
      TotalOfNone(tokens[..i], mint);
    } else {
      TotalOfOne(tokens[..|tokens| - 1], mint, i);
    }
  }

  lemma WithdrawalGoesThrough(a: State, b: State, amount: nat, delivered: nat)
    requires amount > 0
    requires a == State(Accounts(amount), map[], {}, {}, [])
    requires Executed(SHARED, a, b, CallOf(amount, Deposit(amount)), Deposit(amount), delivered)
    ensures CallError(SHARED, b, CallOf(amount, Withdraw(amount))) == None
    ensures Redeemed(SHARED, b, CallOf(amount, Withdraw(amount))) == amount
  {
    var d, w := CallOf(amount, Deposit(amount)), CallOf(amount, Withdraw(amount));
    FreshIsEmpty(OWNER);
    DepositedActive(SlotsOf(a, d), SlotsOf(b, d), 6);
    assert [6][0] in Active(SlotsOf(b, d));
    ActiveIff(SlotsOf(b, d), 6);
    assert Refreshes(SHARED, b, w);
    TotalOfOne(a.tokens, MINT, 0);
    assert forall i {:trigger b.tokens[i]} :: 0 <= i < 5 && i != 3 ==> b.tokens[i].amount == 0;
    TotalOfOne(b.tokens, MINT, 3);
    assert Total(b.tokens, MINT) == Total(a.tokens, MINT);
    assert VaultWithdraw(LENDER, 3, b, CpiOf(w)).Some?;
  }

  lemma RoundTripEnds(a: State, b: State, c: State, amount: nat, d: nat, w: nat)
    requires amount > 0
    requires a == State(Accounts(amount), map[], {}, {}, [])
    requires Executed(SHARED, a, b, CallOf(amount, Deposit(amount)), Deposit(amount), d)
    requires Executed(SHARED, b, c, CallOf(amount, Withdraw(amount)), Withdraw(amount), w)
    requires w == amount
    ensures |c.tokens| == 5 && c.tokens[0].amount == 0 && c.tokens[4].amount == amount
    ensures c.made == [InitMetadata(7), InitObligation(8), InitFarm(9)]
  {
    assert |b.tokens| == 5 && b.tokens[0].amount == 0 && b.tokens[4].amount == 0;
    assert b.made == [] + Missing(a, CallOf(amount, Deposit(amount)));
  }

  /** A first deposit of any positive amount, and its withdrawal: both succeed, and the pool has the amount. */
  method RoundTrip(amount: nat) returns (p: Program, first: Result<Action, AdapterError>, second: Result<Action, AdapterError>)
    requires amount > 0
    ensures p.Valid()
    ensures first == Success(Deposit(amount)) && second == Success(Withdraw(amount))
    ensures |p.state.tokens| == 5 && p.state.tokens[4].amount == amount && p.state.tokens[0].amount == 0
    ensures p.state.made == [InitMetadata(7), InitObligation(8), InitFarm(9)]
  {
    var start := State(Accounts(amount), map[], {}, {}, []);
    VaultLenderIsHonest(SHARED, 3);
    DepositGoesThrough(start, amount);
    p := new Program(SHARED, start);
    var d, w;
    first, d := p.Execute(CallOf(amount, Deposit(amount)));
    ghost var middle := p.state;
    WithdrawalGoesThrough(start, middle, amount, d);
    second, w := p.Execute(CallOf(amount, Withdraw(amount)));
    RoundTripEnds(start, middle, p.state, amount, d, w);
  }
}
