/**
 programs/b402-kamino-adapter/src/lib.rs: when a call succeeds and with which error it fails, said of its
 arguments, the accounts it names and what the lender answers, in the order in which the program looks.
 */
module KaminoOutcome {
  import opened KaminoAdapter
  import opened Wrappers

  // ----- Before the lender is asked -----

  /** The vaults and scratch accounts exist, and the scratch accounts are the program's. */
  ghost predicate Scratch(env: Env, s: State, c: Call) {
    && c.inVault < |s.tokens| && c.outVault < |s.tokens| && c.adapterIn < |s.tokens| && c.adapterOut < |s.tokens|
    && s.tokens[c.adapterIn].owner == env.authority && s.tokens[c.adapterOut].owner == env.authority
  }

  /** A call with accounts, an amount and a payload. */
  ghost predicate Posed(env: Env, s: State, c: Call, hash: Key, action: Action) {
    Scratch(env, s, c) && c.inAmount > 0 && c.payload == Some((hash, action))
  }

  /** Each check of a call's arguments, with the error that answers it. */
  lemma ArgumentErrors(env: Env, s: State, c: Call, hash: Key, action: Action)
    ensures CallError(env, s, c) == Some(AccountNotInitialized) <==>
              c.inVault >= |s.tokens| || c.outVault >= |s.tokens| || c.adapterIn >= |s.tokens| || c.adapterOut >= |s.tokens|
    ensures CallError(env, s, c) == Some(ScratchAtaOwnerMismatch) <==>
              && c.inVault < |s.tokens| && c.outVault < |s.tokens| && c.adapterIn < |s.tokens| && c.adapterOut < |s.tokens|
              && (s.tokens[c.adapterIn].owner != env.authority || s.tokens[c.adapterOut].owner != env.authority)
    ensures CallError(env, s, c) == Some(InvalidAmount) <==> Scratch(env, s, c) && c.inAmount == 0
    ensures CallError(env, s, c) == Some(InvalidActionPayload) <==> Scratch(env, s, c) && c.inAmount > 0 && c.payload == None
    ensures Posed(env, s, c, hash, action) ==>
              var short := s.tokens[c.adapterIn].amount < c.inAmount;
              && (CallError(env, s, c) == Some(InsufficientInput) <==> (action.Deposit? || action.Repay?) && short)
              && (CallError(env, s, c) == Some(NotYetImplemented) <==> action.Borrow? || (action.Repay? && !short))
              && (CallError(env, s, c) == Some(AmountMismatch) <==>
                    || (action.Deposit? && !short && action.amount != c.inAmount)
                    || (action.Withdraw? && action.ktIn != c.inAmount))
  {
  }

  /** A deposit or a withdrawal that reaches its handler. */
  ghost predicate Handled(env: Env, s: State, c: Call, hash: Key, action: Action) {
    && Posed(env, s, c, hash, action)
    && match action
       case Deposit(amount) => amount == c.inAmount <= s.tokens[c.adapterIn].amount
       case Withdraw(ktIn) => ktIn == c.inAmount
       case _ => false
  }

  /** The checks of the handlers on the accounts that are passed on. */
  lemma AccountErrors(env: Env, s: State, c: Call, hash: Key, action: Action)
    requires Handled(env, s, c, hash, action)
    ensures CallError(env, s, c) == Some(MissingRemainingAccounts) <==> !c.allAccounts
    ensures CallError(env, s, c) == Some(OwnerPdaMismatch) <==> c.allAccounts && c.ownerPda != env.derive(hash, c.liquidityMint)
  {
  }

  // ----- The obligation -----

  /** No other reserve holds a slot, and this one at most one. */
  ghost predicate OnlyOnce(slots: seq<Key>, reserve: Key) {
    && (forall i :: 0 <= i < |slots| ==> slots[i] == 0 || slots[i] == reserve)
    && (forall i, j :: 0 <= i < j < |slots| ==> slots[i] == 0 || slots[j] == 0)
  }

  lemma OnlyOnceIff(slots: seq<Key>, reserve: Key)
    requires reserve != 0
    ensures OnlyOnce(slots, reserve) <==> Active(slots) == [] || Active(slots) == [reserve]
  {
    ActiveIff(slots, reserve);
    if OnlyOnce(slots, reserve) {
      if i :| 0 <= i < |slots| && slots[i] != 0 {
        OnlyActive(slots, i, reserve, |slots|);
      }
    }
    if Active(slots) == [] || Active(slots) == [reserve] {
      forall i | 0 <= i < |slots|
        ensures slots[i] == 0 || slots[i] == reserve
      {
        ActiveIff(slots, slots[i]);
      }
      forall i, j | 0 <= i < j < |slots|
        ensures slots[i] == 0 || slots[j] == 0
      {
        if slots[i] != 0 && slots[j] != 0 {
          TwoActive(slots, i, j);
        }
      }
    }
  }

  /** refresh_obligation passes what is forwarded exactly then. */
  lemma RefreshesIff(env: Env, s: State, c: Call)
    requires WellFormed(s)
    ensures Refreshes(env, s, c) <==>
              && env.lender.refreshReserve(s, c.reserve) && c.obligation in s.obligations
              && c.reserve != 0 && OnlyOnce(s.obligations[c.obligation].slots, c.reserve)
  {
    if c.obligation in s.obligations {
      ForwardedIff(s.obligations[c.obligation].slots, c.reserve);
      if c.reserve != 0 {
        OnlyOnceIff(s.obligations[c.obligation].slots, c.reserve);
      }
    }
  }

  // ----- Deposits -----

  /** After each of the set-up steps, those whose accounts are there already being skipped. */
  ghost predicate SetUpThrough(s: State, c: Call, s1: State, s2: State, ready: State) {
    && s1 == (if c.userMetadata in s.metadata then s
              else s.(metadata := s.metadata + {c.userMetadata}, made := s.made + [InitMetadata(c.userMetadata)]))
    && s2 == (if c.obligation in s.obligations then s1
              else s1.(obligations := s1.obligations[c.obligation := Obligation(c.ownerPda, [0, 0, 0, 0, 0, 0, 0, 0])],
                       made := s1.made + [InitObligation(c.obligation)]))
    && ready == (if c.farm.None? || c.farm.value in s.farms then s2
                 else s2.(farms := s2.farms + {c.farm.value}, made := s2.made + [InitFarm(c.farm.value)]))
  }

  lemma SetUpIs(s: State, c: Call, s1: State, s2: State, ready: State)
    requires SetUpThrough(s, c, s1, s2, ready)
    ensures s1 == WithMetadata(s, c) && s2 == WithObligation(s, c) && ready == ReadyState(s, c)
  {
    assert FreshObligation(c.ownerPda).slots == [0, 0, 0, 0, 0, 0, 0, 0];
  }

  /** The amount has moved from adapter_in to the owner's account. */
  ghost predicate Hop(ready: State, c: Call, hopped: State) {
    && hopped == ready.(tokens := hopped.tokens) && |hopped.tokens| == |ready.tokens|
    && (c.adapterIn < |ready.tokens| && ready.tokens[c.adapterIn].amount >= c.inAmount ==>
          forall i {:trigger hopped.tokens[i]} :: 0 <= i < |ready.tokens| ==>
            hopped.tokens[i] == ready.tokens[i].(amount := ready.tokens[i].amount - (if i == c.adapterIn then c.inAmount else 0)
                                                           + if i == c.ownerAta then c.inAmount else 0))
  }

  lemma HopIs(env: Env, s: State, c: Call, hopped: State)
    requires Hopped(env, s, c).Some? && Hop(ReadyState(s, c), c, hopped)
    requires c.adapterIn < |s.tokens| && s.tokens[c.adapterIn].amount >= c.inAmount
    ensures hopped == Hopped(env, s, c).value
  {
    assert hopped.tokens == Hopped(env, s, c).value.tokens;
  }

  /** What a deposit with good arguments and accounts comes to. */
  lemma DepositOutcome(env: Env, s: State, c: Call, hash: Key, action: Action, s1: State, s2: State, ready: State, hopped: State)
    requires WellFormed(s) && Handled(env, s, c, hash, action) && action.Deposit?
    requires c.allAccounts && c.ownerPda == env.derive(hash, c.liquidityMint)
    requires SetUpThrough(s, c, s1, s2, ready) && Hop(ready, c, hopped)
    ensures c.obligation in ready.obligations
    ensures CallError(env, s, c)
            == if c.userMetadata !in s.metadata && !env.lender.setup(s, c.userMetadata) then Some(KaminoCpiFailed)
               else if c.obligation !in s.obligations && !env.lender.setup(s1, c.obligation) then Some(KaminoCpiFailed)
               else if c.farm.Some? && c.farm.value !in s.farms && !env.lender.setup(s2, c.farm.value) then Some(KaminoCpiFailed)
               else if !env.lender.refreshReserve(ready, c.reserve) then Some(KaminoCpiFailed)
               else if c.reserve == 0 || !OnlyOnce(ready.obligations[c.obligation].slots, c.reserve) then Some(KaminoCpiFailed)
               else if c.ownerAta >= |s.tokens| || s.tokens[c.ownerAta].mint != s.tokens[c.adapterIn].mint then Some(TransferFailed)
               else if env.lender.deposit(hopped, Cpi(c.obligation, c.ownerPda, c.reserve, c.ownerAta, c.inAmount)).None? then
                 Some(KaminoCpiFailed)
               else if c.minOutAmount > 0 then Some(SlippageExceeded)
               else None
  {
    SetUpIs(s, c, s1, s2, ready);
    ReadyStateIs(s, c);
    RefreshesIff(env, ready, c);
    HopFailsIff(env, s, c);
    if Hopped(env, s, c).Some? {
      HopIs(env, s, c, hopped);
    }
  }

  /**
   A deposit succeeds exactly if its arguments and accounts are good, the lender permits each set-up account
   that is missing, refreshes the reserve and takes the deposit, the obligation holds no other reserve, and
   nothing is asked for in return.
   */
  lemma DepositSucceedsIff(env: Env, s: State, c: Call, hash: Key, amount: nat, s1: State, s2: State, ready: State, hopped: State)
    requires WellFormed(s) && c.payload == Some((hash, Deposit(amount)))
    requires SetUpThrough(s, c, s1, s2, ready) && Hop(ready, c, hopped)
    ensures c.obligation in ready.obligations
    ensures CallError(env, s, c) == None <==>
              && Scratch(env, s, c) && 0 < c.inAmount == amount <= s.tokens[c.adapterIn].amount
              && c.allAccounts && c.ownerPda == env.derive(hash, c.liquidityMint) && c.minOutAmount == 0
              && (c.userMetadata in s.metadata || env.lender.setup(s, c.userMetadata))
              && (c.obligation in s.obligations || env.lender.setup(s1, c.obligation))
              && (c.farm.None? || c.farm.value in s.farms || env.lender.setup(s2, c.farm.value))
              && env.lender.refreshReserve(ready, c.reserve)
              && c.reserve != 0 && OnlyOnce(ready.obligations[c.obligation].slots, c.reserve)
              && c.ownerAta < |s.tokens| && s.tokens[c.ownerAta].mint == s.tokens[c.adapterIn].mint
              && env.lender.deposit(hopped, Cpi(c.obligation, c.ownerPda, c.reserve, c.ownerAta, c.inAmount)).Some?
  {
    ArgumentErrors(env, s, c, hash, Deposit(amount));
    if Handled(env, s, c, hash, Deposit(amount)) {
      AccountErrors(env, s, c, hash, Deposit(amount));
      if c.allAccounts && c.ownerPda == env.derive(hash, c.liquidityMint) {
        DepositOutcome(env, s, c, hash, Deposit(amount), s1, s2, ready, hopped);
      }
    }
  }

  /** A deposit that succeeded ends in what the lender makes of the state after set-up and hop. */
  lemma DepositEnds(env: Env, s: State, b: State, c: Call, action: Action, delivered: nat, s1: State, s2: State, ready: State, hopped: State)
    requires WellFormed(s) && c.adapterIn < |s.tokens| && s.tokens[c.adapterIn].amount >= c.inAmount
    requires Executed(env, s, b, c, action, delivered) && action.Deposit?
    requires SetUpThrough(s, c, s1, s2, ready) && Hop(ready, c, hopped)
    ensures env.lender.deposit(hopped, Cpi(c.obligation, c.ownerPda, c.reserve, c.ownerAta, c.inAmount)) == Some(b)
  {
    SetUpIs(s, c, s1, s2, ready);
    HopIs(env, s, c, hopped);
  }

  // ----- Withdrawals -----

  ghost predicate SameMints(s: State, a: nat, b: nat) {
    a < |s.tokens| && b < |s.tokens| && s.tokens[a].mint == s.tokens[b].mint
  }

  /** What the owner's account holds after the lender's payment. */
  function Paid(env: Env, s: State, c: Call): nat {
    var t := env.lender.withdraw(s, Cpi(c.obligation, c.ownerPda, c.reserve, c.ownerAta, c.inAmount));
    if t.Some? && c.ownerAta < |t.value.tokens| then t.value.tokens[c.ownerAta].amount else 0
  }

  /** What a withdrawal with good arguments and accounts comes to. */
  lemma WithdrawOutcome(env: Env, s: State, c: Call, hash: Key, action: Action)
    requires WellFormed(s) && Handled(env, s, c, hash, action) && action.Withdraw?
    requires c.allAccounts && c.ownerPda == env.derive(hash, c.liquidityMint)
    ensures CallError(env, s, c)
            == if !env.lender.refreshReserve(s, c.reserve) || c.obligation !in s.obligations then Some(KaminoCpiFailed)
               else if c.reserve == 0 || !OnlyOnce(s.obligations[c.obligation].slots, c.reserve) then Some(KaminoCpiFailed)
               else if env.lender.withdraw(s, Cpi(c.obligation, c.ownerPda, c.reserve, c.ownerAta, c.inAmount)).None? then
                 Some(KaminoCpiFailed)
               else if Paid(env, s, c) > 0 && !SameMints(s, c.ownerAta, c.adapterOut) then Some(TransferFailed)
               else if Paid(env, s, c) < c.minOutAmount then Some(SlippageExceeded)
               else if Paid(env, s, c) > 0 && !SameMints(s, c.adapterOut, c.outVault) then Some(TransferFailed)
               else None
  {
    RefreshesIff(env, s, c);
  }

  /**
   A withdrawal succeeds exactly if its arguments and accounts are good, the lender refreshes the reserve and
   pays, the obligation exists and holds no other reserve, and what the owner's account then holds is
   enough and of one mint all the way.
   */
  lemma WithdrawSucceedsIff(env: Env, s: State, c: Call, hash: Key, ktIn: nat, t: Option<State>)
    requires WellFormed(s) && Honest(env) && c.payload == Some((hash, Withdraw(ktIn)))
    requires t == env.lender.withdraw(s, Cpi(c.obligation, c.ownerPda, c.reserve, c.ownerAta, c.inAmount))
    ensures t.Some? ==> c.ownerAta < |s.tokens| == |t.value.tokens| && Redeemed(env, s, c) == t.value.tokens[c.ownerAta].amount
    ensures CallError(env, s, c) == None <==>
              && Scratch(env, s, c) && 0 < c.inAmount == ktIn
              && c.allAccounts && c.ownerPda == env.derive(hash, c.liquidityMint)
              && env.lender.refreshReserve(s, c.reserve) && c.obligation in s.obligations
              && c.reserve != 0 && OnlyOnce(s.obligations[c.obligation].slots, c.reserve)
              && t.Some? && t.value.tokens[c.ownerAta].amount >= c.minOutAmount
              && (t.value.tokens[c.ownerAta].amount > 0 ==>
                    s.tokens[c.ownerAta].mint == s.tokens[c.adapterOut].mint == s.tokens[c.outVault].mint)
  {
    if t.Some? {
      assert WithdrawIsHonest(env, s, Cpi(c.obligation, c.ownerPda, c.reserve, c.ownerAta, c.inAmount), t.value);
    }
    ArgumentErrors(env, s, c, hash, Withdraw(ktIn));
    if Handled(env, s, c, hash, Withdraw(ktIn)) {
      AccountErrors(env, s, c, hash, Withdraw(ktIn));
      if c.allAccounts && c.ownerPda == env.derive(hash, c.liquidityMint) {
        WithdrawOutcome(env, s, c, hash, Withdraw(ktIn));
      }
    }
  }

  /**
   A withdrawal that succeeded ends in what the lender makes of the state, except that all that the owner's
   account then holds is in the out vault.
   */
  lemma WithdrawEnds(env: Env, s: State, b: State, c: Call, action: Action, delivered: nat, t: Option<State>)
    requires Honest(env) && Executed(env, s, b, c, action, delivered) && action.Withdraw?
    requires t == env.lender.withdraw(s, Cpi(c.obligation, c.ownerPda, c.reserve, c.ownerAta, c.inAmount))
    ensures t.Some? && c.ownerAta < |s.tokens| == |t.value.tokens| == |b.tokens|
    ensures delivered == t.value.tokens[c.ownerAta].amount
    ensures b == t.value.(tokens := b.tokens)
    ensures forall i :: 0 <= i < |b.tokens| ==>
              b.tokens[i] == t.value.tokens[i].(amount := if i == c.outVault == c.ownerAta then delivered
                                                          else if i == c.ownerAta then 0
                                                          else if i == c.outVault then t.value.tokens[i].amount + delivered
                                                          else t.value.tokens[i].amount)
  {
    assert WithdrawIsHonest(env, s, Cpi(c.obligation, c.ownerPda, c.reserve, c.ownerAta, c.inAmount), t.value);
  }
}
