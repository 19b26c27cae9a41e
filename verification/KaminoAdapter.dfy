/**
 programs/b402-kamino-adapter/src/lib.rs, per_user_obligation build: token movements and account setup
 of execute, against a lender of which only stated assumptions are known.
 */
module KaminoAdapter {
  import opened Wrappers

  type Key = nat

  /** Pubkey::default(), the mark of a free deposit slot. */
  const DEFAULT_KEY: Key := 0

  const NUM_DEPOSITS: nat := 8

  datatype TokenAccount = TokenAccount(mint: Key, owner: Key, amount: nat)

  /** All token accounts; an account is named by its position, so two names may be one account. */
  type Ledger = seq<TokenAccount>

  /** A deposit position per slot; a slot holds the reserve it is in, or DEFAULT_KEY. */
  datatype Obligation = Obligation(owner: Key, slots: seq<Key>)

  /** A set-up CPI: init_user_metadata, init_obligation or init_obligation_farms_for_reserve, on one account. */
  datatype Init = InitMetadata(key: Key) | InitObligation(key: Key) | InitFarm(key: Key)

  /** Token accounts, the lender's accounts, and the set-up CPIs that were made to it, in order. */
  datatype State = State(tokens: Ledger, obligations: map<Key, Obligation>, metadata: set<Key>, farms: set<Key>, made: seq<Init>)

  datatype Action = Deposit(amount: nat) | Withdraw(ktIn: nat) | Borrow | Repay

  datatype AdapterError =
    | InvalidAmount | InvalidActionPayload | InsufficientInput | AmountMismatch | NotYetImplemented
    | AccountNotInitialized | ScratchAtaOwnerMismatch | MissingRemainingAccounts | OwnerPdaMismatch
    | KaminoCpiFailed | TransferFailed
    | SlippageExceeded

  /** One execute call: its arguments, and the accounts it names. */
  datatype Call = Call(
    inAmount: nat, minOutAmount: nat, payload: Option<(Key, Action)>,
    inVault: nat, outVault: nat, adapterIn: nat, adapterOut: nat,
    allAccounts: bool, reserve: Key, liquidityMint: Key, ownerPda: Key, ownerAta: nat,
    userMetadata: Key, obligation: Key, farm: Option<Key>)

  /** A lending CPI: on whose obligation, in which reserve, through which token account, how much. */
  datatype Cpi = Cpi(obligation: Key, owner: Key, reserve: Key, account: nat, amount: nat)

  /** What the lender does is open, except for the set-up instructions and the refresh account check. */
  datatype Lender = Lender(
    authority: Key,
    setup: (State, Key) -> bool,
    refreshReserve: (State, Key) -> bool,
    deposit: (State, Cpi) -> Option<State>,
    withdraw: (State, Cpi) -> Option<State>)

  datatype Env = Env(authority: Key, derive: (Key, Key) -> Key, collateralMints: set<Key>, lender: Lender)

  // ----- Token accounts -----

  function Total(tokens: Ledger, mint: Key): nat {
    if tokens == [] then 0
    else Total(tokens[..|tokens| - 1], mint) + if tokens[|tokens| - 1].mint == mint then tokens[|tokens| - 1].amount else 0
  }

  function SetAmount(tokens: Ledger, a: nat, amount: nat): Ledger
    requires a < |tokens|
  {
    tokens[a := tokens[a].(amount := amount)]
  }

  /** The token program's transfer; to itself it checks and moves nothing. */
  function Transfer(tokens: Ledger, from: nat, to: nat, authority: Key, amount: nat): Option<Ledger> {
    if from >= |tokens| || to >= |tokens| then None
    else if tokens[from].mint != tokens[to].mint || tokens[from].owner != authority || tokens[from].amount < amount then None
    else
      var debited := SetAmount(tokens, from, tokens[from].amount - amount);
      Some(SetAmount(debited, to, debited[to].amount + amount))
  }

  lemma {:induction false} TotalAfterSet(tokens: Ledger, a: nat, amount: nat, mint: Key)
    requires a < |tokens|
    ensures Total(SetAmount(tokens, a, amount), mint) + (if tokens[a].mint == mint then tokens[a].amount else 0)
            == Total(tokens, mint) + if tokens[a].mint == mint then amount else 0
  {
    var last := |tokens| - 1;
    var after := SetAmount(tokens, a, amount);
    if a < last {
      TotalAfterSet(tokens[..last], a, amount, mint);
      assert after[..last] == SetAmount(tokens[..last], a, amount);
    } else {
      assert after[..last] == tokens[..last];
    }
  }

  lemma TransferConserves(tokens: Ledger, from: nat, to: nat, authority: Key, amount: nat, mint: Key)
    requires Transfer(tokens, from, to, authority, amount).Some?
    ensures Total(Transfer(tokens, from, to, authority, amount).value, mint) == Total(tokens, mint)
  {
    var debited := SetAmount(tokens, from, tokens[from].amount - amount);
    TotalAfterSet(tokens, from, tokens[from].amount - amount, mint);
    TotalAfterSet(debited, to, debited[to].amount + amount, mint);
  }

  // ----- The lender -----

  /** The reserves in the first n slots that are not free. */
  function ActiveUpTo(slots: seq<Key>, n: nat): seq<Key>
    requires n <= |slots|
  {
    if n == 0 then []
    else if slots[n - 1] == DEFAULT_KEY then ActiveUpTo(slots, n - 1)
    else ActiveUpTo(slots, n - 1) + [slots[n - 1]]
  }

  function Active(slots: seq<Key>): seq<Key> {
    ActiveUpTo(slots, |slots|)
  }

  /** refresh_obligation takes exactly the reserves of the active slots, in slot order. */
  predicate RefreshObligation(s: State, obligation: Key, reserves: seq<Key>) {
    obligation in s.obligations && reserves == Active(s.obligations[obligation].slots)
  }

  /** Same accounts with the same mints and owners, and the same total of every mint the lender does not issue. */
  ghost predicate KeepsAccounts(env: Env, a: State, b: State) {
    && |a.tokens| == |b.tokens|
    && (forall i {:trigger b.tokens[i]} :: 0 <= i < |a.tokens| ==>
          b.tokens[i].mint == a.tokens[i].mint && b.tokens[i].owner == a.tokens[i].owner)
    && (forall m {:trigger Total(b.tokens, m)} :: m !in env.collateralMints ==> Total(b.tokens, m) == Total(a.tokens, m))
  }

  /** Nothing outside the lender's own accounts moves, except at one account. */
  ghost predicate MovesOnly(env: Env, a: State, b: State, account: nat) {
    |a.tokens| == |b.tokens| &&
    forall i {:trigger b.tokens[i]} :: 0 <= i < |a.tokens| && i != account && a.tokens[i].owner != env.lender.authority ==>
      b.tokens[i] == a.tokens[i]
  }

  /** A deposit puts its reserve in a slot if it is in none; a withdrawal may free the slot. */
  predicate Deposited(a: seq<Key>, b: seq<Key>, reserve: Key) {
    if reserve in a then b == a
    else exists i :: 0 <= i < |a| && a[i] == DEFAULT_KEY && b == a[i := reserve]
  }

  predicate Withdrawn(a: seq<Key>, b: seq<Key>, reserve: Key) {
    b == a || exists i :: 0 <= i < |a| && a[i] == reserve && b == a[i := DEFAULT_KEY]
  }

  /** Only the named obligation changes, and no account of the lender's is ever closed. */
  ghost predicate KeepsSetup(a: State, b: State, obligation: Key) {
    && a.metadata == b.metadata && a.farms == b.farms && a.made == b.made && a.obligations.Keys == b.obligations.Keys
    && obligation in a.obligations
    && a.obligations[obligation].owner == b.obligations[obligation].owner
    && forall o {:trigger b.obligations[o]} :: o in a.obligations && o != obligation ==> b.obligations[o] == a.obligations[o]
  }

  /**
   What is assumed of the lender: it serves the obligation's owner through a token account of that
   owner, debits a deposit exactly, only ever credits on a withdrawal, touches no other outside account,
   and keeps the rest of its books.
   */
  ghost predicate Honest(env: Env) {
    && (forall s, c {:trigger env.lender.deposit(s, c)} :: env.lender.deposit(s, c).Some? ==>
          DepositIsHonest(env, s, c, env.lender.deposit(s, c).value))
    && (forall s, c {:trigger env.lender.withdraw(s, c)} :: env.lender.withdraw(s, c).Some? ==>
          WithdrawIsHonest(env, s, c, env.lender.withdraw(s, c).value))
  }

  ghost predicate Serves(env: Env, s: State, c: Cpi, t: State) {
    && c.account < |s.tokens| && s.tokens[c.account].owner == c.owner
    && KeepsAccounts(env, s, t) && MovesOnly(env, s, t, c.account) && KeepsSetup(s, t, c.obligation)
    && s.obligations[c.obligation].owner == c.owner
  }

  ghost predicate DepositIsHonest(env: Env, s: State, c: Cpi, t: State) {
    && Serves(env, s, c, t)
    && t.tokens[c.account].amount == s.tokens[c.account].amount - c.amount
    && Deposited(s.obligations[c.obligation].slots, t.obligations[c.obligation].slots, c.reserve)
  }

  ghost predicate WithdrawIsHonest(env: Env, s: State, c: Cpi, t: State) {
    && Serves(env, s, c, t)
    && t.tokens[c.account].amount >= s.tokens[c.account].amount
    && Withdrawn(s.obligations[c.obligation].slots, t.obligations[c.obligation].slots, c.reserve)
  }

  /** The program's own authority is neither the lender's nor any user's. */
  ghost predicate SeparateKeys(env: Env) {
    && env.authority != env.lender.authority
    && forall h, m {:trigger env.derive(h, m)} :: env.derive(h, m) != env.authority && env.derive(h, m) != env.lender.authority
  }

  // ----- obligation_has_reserve -----

  /** Scans the deposit slots of an existing obligation. */
  method ObligationHasReserve(s: State, obligation: Key, reserve: Key) returns (found: bool)
    requires obligation in s.obligations ==> |s.obligations[obligation].slots| == NUM_DEPOSITS
    ensures found <==> obligation in s.obligations && reserve in s.obligations[obligation].slots
  {
    if obligation !in s.obligations {
      return false;
    }
    var slots := s.obligations[obligation].slots;
    for i := 0 to NUM_DEPOSITS
      invariant reserve !in slots[..i]
    {
      if slots[i] == reserve {
        return true;
      }
    }
    assert slots[..NUM_DEPOSITS] == slots;
    return false;
  }

  /** The reserves that deposit and withdraw forward to refresh_obligation. */
  function Forwarded(slots: seq<Key>, reserve: Key): seq<Key> {
    if reserve in slots then [reserve] else []
  }

  lemma {:induction false} ActiveUpToIff(slots: seq<Key>, n: nat, r: Key)
    requires n <= |slots|
    ensures r in ActiveUpTo(slots, n) <==> r != DEFAULT_KEY && exists i :: 0 <= i < n && slots[i] == r
  {
    if n > 0 {
      ActiveUpToIff(slots, n - 1, r);
      if i :| 0 <= i < n && slots[i] == r {
        assert i < n - 1 || i == n - 1;
      }
    }
  }

  lemma {:induction false} NoneActive(slots: seq<Key>, n: nat)
    requires n <= |slots|
    ensures ActiveUpTo(slots, n) == [] <==> forall i :: 0 <= i < n ==> slots[i] == DEFAULT_KEY
  {
    if n > 0 {
      NoneActive(slots, n - 1);
    }
  }

  lemma ActiveIff(slots: seq<Key>, r: Key)
    ensures r in Active(slots) <==> r in slots && r != DEFAULT_KEY
    ensures Active(slots) == [] <==> forall i :: 0 <= i < |slots| ==> slots[i] == DEFAULT_KEY
  {
    ActiveUpToIff(slots, |slots|, r);
    NoneActive(slots, |slots|);
  }

  /**
   What is forwarded passes the lender's check exactly while the obligation holds no other reserve, and
   its own at most once. With the default key, which also marks free slots, it never passes.
   */
  lemma ForwardedIff(slots: seq<Key>, reserve: Key)
    requires slots != []
    ensures Forwarded(slots, reserve) == Active(slots)
            <==> reserve != DEFAULT_KEY && (Active(slots) == [] || Active(slots) == [reserve])
  {
    ActiveIff(slots, reserve);
    if Active(slots) != [] {
      assert Active(slots)[0] in Active(slots);
    }
    if reserve == DEFAULT_KEY {
      if reserve in slots {
        assert reserve in [reserve] && reserve !in Active(slots);
      } else {
        assert slots[0] != DEFAULT_KEY;
      }
    }
  }

  // ----- The adapter -----

  ghost predicate WellFormed(s: State) {
    forall o {:trigger s.obligations[o]} :: o in s.obligations ==> |s.obligations[o].slots| == NUM_DEPOSITS
  }

  predicate Exists(s: State, i: Init) {
    match i
    case InitMetadata(k) => k in s.metadata
    case InitObligation(k) => k in s.obligations
    case InitFarm(k) => k in s.farms
  }

  /** No set-up CPI was made twice, and each left its account behind. */
  ghost predicate InitsHold(s: State) {
    && (forall i, j :: 0 <= i < j < |s.made| ==> s.made[i] != s.made[j])
    && (forall i {:trigger s.made[i]} :: 0 <= i < |s.made| ==> Exists(s, s.made[i]))
  }

  /** What a set-up CPI does. It is not assumed to notice that its account is there already. */
  function Created(s: State, i: Init, owner: Key): State {
    var t := s.(made := s.made + [i]);
    match i
    case InitMetadata(k) => t.(metadata := s.metadata + {k})
    case InitObligation(k) => t.(obligations := s.obligations[k := FreshObligation(owner)])
    case InitFarm(k) => t.(farms := s.farms + {k})
  }

  function InitCpi(env: Env, s: State, i: Init, owner: Key): Option<State> {
    if env.lender.setup(s, i.key) then Some(Created(s, i, owner)) else None
  }

  /** The set-up CPIs that a deposit needs: one for each of its accounts that is not there at entry. */
  function Missing(s: State, c: Call): seq<Init> {
    (if c.userMetadata !in s.metadata then [InitMetadata(c.userMetadata)] else [])
    + (if c.obligation !in s.obligations then [InitObligation(c.obligation)] else [])
    + if c.farm.Some? && c.farm.value !in s.farms then [InitFarm(c.farm.value)] else []
  }

  /** The set-up accounts of this call are there, no others that were not, and nothing was made that was not missing. */
  predicate HasSetup(a: State, b: State, c: Call) {
    && b.metadata == a.metadata + {c.userMetadata}
    && b.farms == a.farms + (if c.farm.Some? then {c.farm.value} else {})
    && b.made == a.made + Missing(a, c)
  }

  /** After step 1 of a deposit, after step 2, and after step 3. */
  function WithMetadata(s: State, c: Call): State {
    if c.userMetadata in s.metadata then s else Created(s, InitMetadata(c.userMetadata), c.ownerPda)
  }

  function WithObligation(s: State, c: Call): State {
    var t := WithMetadata(s, c);
    if c.obligation in s.obligations then t else Created(t, InitObligation(c.obligation), c.ownerPda)
  }

  function ReadyState(s: State, c: Call): State {
    var t := WithObligation(s, c);
    if c.farm.None? || c.farm.value in s.farms then t else Created(t, InitFarm(c.farm.value), c.ownerPda)
  }

  /** The lender refuses to create one of the accounts that are missing, in the state its predecessors left. */
  predicate SetUpRefused(env: Env, s: State, c: Call) {
    || (c.userMetadata !in s.metadata && !env.lender.setup(s, c.userMetadata))
    || (c.obligation !in s.obligations && !env.lender.setup(WithMetadata(s, c), c.obligation))
    || (c.farm.Some? && c.farm.value !in s.farms && !env.lender.setup(WithObligation(s, c), c.farm.value))
  }

  /** Being ready creates what was missing and keeps everything else. */
  lemma ReadyStateIs(s: State, c: Call)
    requires WellFormed(s)
    ensures var t := ReadyState(s, c);
            && WellFormed(t) && t.tokens == s.tokens && HasSetup(s, t, c)
            && t.obligations.Keys == s.obligations.Keys + {c.obligation}
            && forall o {:trigger t.obligations[o]} :: o in t.obligations ==>
                 t.obligations[o] == if o in s.obligations then s.obligations[o] else FreshObligation(c.ownerPda)
  {
  }

  /** What was missing had not been made while every account made is there, so nothing is made twice. */
  lemma MissingIsNew(a: State, b: State, c: Call)
    requires InitsHold(a)
    requires a.metadata <= b.metadata && a.farms <= b.farms && a.obligations.Keys <= b.obligations.Keys
    requires HasSetup(a, b, c) && c.obligation in b.obligations
    ensures InitsHold(b)
  {
    forall i | 0 <= i < |a.made|
      ensures Exists(b, a.made[i]) && a.made[i] !in Missing(a, c)
    {
      assert Exists(a, a.made[i]);
    }
  }

  /** Steps 1 to 3 of a deposit: whatever is missing is created, once, and everything else stays. */
  method SetUp(env: Env, s: State, c: Call) returns (r: Result<State, AdapterError>)
    ensures r == if SetUpRefused(env, s, c) then Failure(KaminoCpiFailed) else Success(ReadyState(s, c))
  {
    var t := s;
    if c.userMetadata !in t.metadata {
      var made := InitCpi(env, t, InitMetadata(c.userMetadata), c.ownerPda);
      if made.None? {
        return Failure(KaminoCpiFailed);
      }
      t := made.value;
    }
    if c.obligation !in t.obligations {
      var made := InitCpi(env, t, InitObligation(c.obligation), c.ownerPda);
      if made.None? {
        return Failure(KaminoCpiFailed);
      }
      t := made.value;
    }
    if c.farm.Some? && c.farm.value !in t.farms {
      var made := InitCpi(env, t, InitFarm(c.farm.value), c.ownerPda);
      if made.None? {
        return Failure(KaminoCpiFailed);
      }
      t := made.value;
    }
    return Success(t);
  }

  /** A Vanilla obligation right after init_obligation. */
  function FreshObligation(owner: Key): Obligation {
    Obligation(owner, seq(NUM_DEPOSITS, _ => DEFAULT_KEY))
  }

  /** The lender refreshes the reserve, and the forwarded reserves are the active slots. */
  predicate Refreshes(env: Env, s: State, c: Call) {
    && env.lender.refreshReserve(s, c.reserve)
    && c.obligation in s.obligations
    && RefreshObligation(s, c.obligation, Forwarded(s.obligations[c.obligation].slots, c.reserve))
  }

  /** Both handlers' refresh steps. */
  method Refresh(env: Env, s: State, c: Call) returns (ok: bool)
    requires WellFormed(s)
    ensures ok <==> Refreshes(env, s, c)
  {
    if !env.lender.refreshReserve(s, c.reserve) {
      return false;
    }
    var needsReserve := ObligationHasReserve(s, c.obligation, c.reserve);
    return RefreshObligation(s, c.obligation, if needsReserve then [c.reserve] else []);
  }

  /** After a deposit: of the accounts that are not the lender's, only adapter_in moved, by the amount. */
  ghost predicate DepositSettles(env: Env, a: State, b: State, c: Call) {
    && KeepsAccounts(env, a, b)
    && forall i {:trigger b.tokens[i]} :: 0 <= i < |a.tokens| && a.tokens[i].owner != env.lender.authority ==>
         b.tokens[i].amount == a.tokens[i].amount - if i == c.adapterIn then c.inAmount else 0
  }

  /**
   After a withdrawal that delivered some amount: of the accounts that are not the lender's, the owner's
   was emptied into the out vault, whichever of the named accounts happen to be the same.
   */
  ghost predicate WithdrawSettles(env: Env, a: State, b: State, c: Call, delivered: nat) {
    && KeepsAccounts(env, a, b)
    && c.ownerAta < |a.tokens|
    && delivered >= a.tokens[c.ownerAta].amount
    && forall i {:trigger b.tokens[i]} :: 0 <= i < |a.tokens| && a.tokens[i].owner != env.lender.authority ==>
         b.tokens[i].amount == a.tokens[i].amount
                               - (if i == c.ownerAta then a.tokens[i].amount else 0)
                               + (if i == c.outVault then delivered else 0)
  }

  /** No set-up account comes or goes, and no set-up CPI is made. */
  predicate SameSetup(a: State, b: State) {
    b.metadata == a.metadata && b.farms == a.farms && b.made == a.made
  }

  /** No obligation but the named one changes or appears. */
  ghost predicate KeepsBooks(a: State, b: State, obligation: Key) {
    && WellFormed(b)
    && b.obligations.Keys == a.obligations.Keys + {obligation}
    && forall o {:trigger b.obligations[o]} :: o in a.obligations && o != obligation ==> b.obligations[o] == a.obligations[o]
  }

  /** A lender CPI leaves obligations their eight slots, and the set-up accounts where they are. */
  lemma ServesKeepsBooks(env: Env, s: State, c: Cpi, t: State)
    requires WellFormed(s)
    requires Serves(env, s, c, t)
    requires |t.obligations[c.obligation].slots| == |s.obligations[c.obligation].slots|
    ensures KeepsBooks(s, t, c.obligation)
  {
    forall o | o in t.obligations
      ensures |t.obligations[o].slots| == NUM_DEPOSITS
    {
      assert o in s.obligations;
    }
  }

  lemma TransferKeepsAccounts(env: Env, s: State, from: nat, to: nat, authority: Key, amount: nat)
    requires Transfer(s.tokens, from, to, authority, amount).Some?
    ensures var t := s.(tokens := Transfer(s.tokens, from, to, authority, amount).value);
            && KeepsAccounts(env, s, t)
            && forall i {:trigger t.tokens[i]} :: 0 <= i < |s.tokens| ==>
                 t.tokens[i].amount == s.tokens[i].amount - (if i == from then amount else 0) + (if i == to then amount else 0)
  {
    forall m
      ensures Total(Transfer(s.tokens, from, to, authority, amount).value, m) == Total(s.tokens, m)
    {
      TransferConserves(s.tokens, from, to, authority, amount, m);
    }
  }

  lemma KeepsAccountsTransitive(env: Env, a: State, b: State, c: State)
    requires KeepsAccounts(env, a, b) && KeepsAccounts(env, b, c)
    ensures KeepsAccounts(env, a, c)
  {
    forall m | m !in env.collateralMints
      ensures Total(c.tokens, m) == Total(a.tokens, m)
    {
      assert Total(b.tokens, m) == Total(a.tokens, m);
    }
  }

  /** The deposit slots of the named obligation; those of a fresh one while it does not exist. */
  function SlotsOf(s: State, c: Call): seq<Key> {
    if c.obligation in s.obligations then s.obligations[c.obligation].slots else FreshObligation(c.ownerPda).slots
  }

  /** The named obligation, once there, is the caller's. */
  predicate Owns(s: State, c: Call) {
    c.obligation in s.obligations ==> s.obligations[c.obligation].owner == c.ownerPda
  }

  /** The lending CPI of a call. */
  function CpiOf(c: Call): Cpi {
    Cpi(c.obligation, c.ownerPda, c.reserve, c.ownerAta, c.inAmount)
  }

  /** After the hop of a deposit from adapter_in to the owner's account. */
  function Hopped(env: Env, s: State, c: Call): Option<State> {
    var a := ReadyState(s, c);
    match Transfer(a.tokens, c.adapterIn, c.ownerAta, env.authority, c.inAmount)
    case None => None
    case Some(tokens) => Some(a.(tokens := tokens))
  }

  /** The hop fails only for want of the owner's account, or on its mint. */
  lemma HopFailsIff(env: Env, s: State, c: Call)
    requires c.adapterIn < |s.tokens| && s.tokens[c.adapterIn].owner == env.authority
    requires s.tokens[c.adapterIn].amount >= c.inAmount
    ensures Hopped(env, s, c).None? <==> c.ownerAta >= |s.tokens| || s.tokens[c.ownerAta].mint != s.tokens[c.adapterIn].mint
  {
  }

  /** A deposit ends in what the lender makes of the state after the hop. */
  ghost predicate Lent(env: Env, a: State, b: State, c: Call) {
    Hopped(env, a, c).Some? && env.lender.deposit(Hopped(env, a, c).value, CpiOf(c)) == Some(b)
  }

  /** A withdrawal ends in what the lender makes of the state, but for the amount that moves from one account to another. */
  ghost predicate PaidOn(env: Env, a: State, b: State, c: Call, receiver: nat, delivered: nat) {
    match env.lender.withdraw(a, CpiOf(c))
    case None => false
    case Some(t) =>
      && b == t.(tokens := b.tokens) && |b.tokens| == |t.tokens|
      && forall i {:trigger b.tokens[i]} :: 0 <= i < |t.tokens| ==>
           b.tokens[i].amount == t.tokens[i].amount - (if i == c.ownerAta then delivered else 0)
                                 + (if i == receiver then delivered else 0)
  }

  /** What stops a deposit, if anything: each CPI is judged in the state it is made in. */
  function DepositError(env: Env, s: State, c: Call, owner: Key): Option<AdapterError> {
    if !c.allAccounts then Some(MissingRemainingAccounts)
    else if c.ownerPda != owner then Some(OwnerPdaMismatch)
    else if SetUpRefused(env, s, c) || !Refreshes(env, ReadyState(s, c), c) then Some(KaminoCpiFailed)
    else
      match Hopped(env, s, c)
      case None => Some(TransferFailed)
      case Some(b) => if env.lender.deposit(b, CpiOf(c)).None? then Some(KaminoCpiFailed) else None
  }

  /** What the owner's account holds once the lender has paid a withdrawal. */
  function Redeemed(env: Env, s: State, c: Call): nat {
    match env.lender.withdraw(s, CpiOf(c))
    case None => 0
    case Some(t) => if c.ownerAta < |t.tokens| then t.tokens[c.ownerAta].amount else 0
  }

  /** What stops a withdrawal before the sweep, if anything. */
  function WithdrawError(env: Env, s: State, c: Call, owner: Key): Option<AdapterError> {
    if !c.allAccounts then Some(MissingRemainingAccounts)
    else if c.ownerPda != owner then Some(OwnerPdaMismatch)
    else if !Refreshes(env, s, c) || env.lender.withdraw(s, CpiOf(c)).None? then Some(KaminoCpiFailed)
    else if Redeemed(env, s, c) > 0 && !SameMint(s, c.ownerAta, c.adapterOut) then Some(TransferFailed)
    else None
  }

  predicate SameMint(s: State, a: nat, b: nat) {
    a < |s.tokens| && b < |s.tokens| && s.tokens[a].mint == s.tokens[b].mint
  }

  /** It fails exactly if there is an error, and with that one. */
  predicate FailsWith<T>(r: Result<T, AdapterError>, e: Option<AdapterError>) {
    if e.Some? then r == Failure(e.value) else r.Success?
  }

  /** handle_deposit_per_user */
  method HandleDeposit(env: Env, s: State, c: Call, owner: Key) returns (r: Result<State, AdapterError>)
    requires Honest(env) && SeparateKeys(env) && WellFormed(s)
    requires owner != env.authority && owner != env.lender.authority
    requires c.adapterIn < |s.tokens| && s.tokens[c.adapterIn].owner == env.authority
    requires s.tokens[c.adapterIn].amount >= c.inAmount
    ensures FailsWith(r, DepositError(env, s, c, owner))
    ensures r.Success? ==> Lent(env, s, r.value, c)
    ensures r.Success? ==>
              && DepositSettles(env, s, r.value, c)
              && KeepsBooks(s, r.value, c.obligation) && HasSetup(s, r.value, c)
              && r.value.obligations[c.obligation].owner == c.ownerPda
              && c.ownerPda == owner && Owns(s, c)
              && Forwarded(SlotsOf(s, c), c.reserve) == Active(SlotsOf(s, c))
              && Deposited(SlotsOf(s, c), SlotsOf(r.value, c), c.reserve)
  {
    if !c.allAccounts {
      return Failure(MissingRemainingAccounts);
    }
    if c.ownerPda != owner {
      return Failure(OwnerPdaMismatch);
    }
    var ready := SetUp(env, s, c);
    if ready.Failure? {
      return Failure(ready.error);
    }
    var a := ready.value;
    ReadyStateIs(s, c);
    var refreshed := Refresh(env, a, c);
    if !refreshed {
      return Failure(KaminoCpiFailed);
    }
    var moved := Transfer(a.tokens, c.adapterIn, c.ownerAta, env.authority, c.inAmount);
    if moved.None? {
      return Failure(TransferFailed);
    }
    var b := a.(tokens := moved.value);
    TransferKeepsAccounts(env, a, c.adapterIn, c.ownerAta, env.authority, c.inAmount);
    var cpi := Cpi(c.obligation, owner, c.reserve, c.ownerAta, c.inAmount);
    var lent := env.lender.deposit(b, cpi);
    if lent.None? {
      return Failure(KaminoCpiFailed);
    }
    assert DepositIsHonest(env, b, cpi, lent.value);
    ServesKeepsBooks(env, b, cpi, lent.value);
    KeepsAccountsTransitive(env, s, b, lent.value);
    return Success(lent.value);
  }

  /** handle_withdraw_per_user */
  method HandleWithdraw(env: Env, s: State, c: Call, owner: Key) returns (r: Result<State, AdapterError>, delivered: nat)
    requires Honest(env) && SeparateKeys(env) && WellFormed(s)
    requires owner != env.authority && owner != env.lender.authority
    requires c.adapterOut < |s.tokens| && s.tokens[c.adapterOut].owner == env.authority
    ensures FailsWith(r, WithdrawError(env, s, c, owner))
    ensures r.Success? ==> delivered == Redeemed(env, s, c) && PaidOn(env, s, r.value, c, c.adapterOut, delivered)
    ensures r.Success? ==>
              && KeepsAccounts(env, s, r.value)
              && WithdrawSettles(env, s, r.value, c.(outVault := c.adapterOut), delivered)
              && KeepsBooks(s, r.value, c.obligation) && c.obligation in s.obligations && SameSetup(s, r.value)
              && r.value.obligations[c.obligation].owner == c.ownerPda
              && s.tokens[c.ownerAta].owner == c.ownerPda == owner && c.ownerAta != c.adapterOut && Owns(s, c)
              && Forwarded(SlotsOf(s, c), c.reserve) == Active(SlotsOf(s, c))
              && Withdrawn(SlotsOf(s, c), SlotsOf(r.value, c), c.reserve)
  {
    delivered := 0;
    if !c.allAccounts {
      return Failure(MissingRemainingAccounts), delivered;
    }
    if c.ownerPda != owner {
      return Failure(OwnerPdaMismatch), delivered;
    }
    var refreshed := Refresh(env, s, c);
    if !refreshed {
      return Failure(KaminoCpiFailed), delivered;
    }
    var cpi := Cpi(c.obligation, owner, c.reserve, c.ownerAta, c.inAmount);
    var lent := env.lender.withdraw(s, cpi);
    if lent.None? {
      return Failure(KaminoCpiFailed), delivered;
    }
    assert WithdrawIsHonest(env, s, cpi, lent.value);
    ServesKeepsBooks(env, s, cpi, lent.value);
    var a := lent.value;
    var ownerAmount := a.tokens[c.ownerAta].amount;
    delivered := ownerAmount;
    if ownerAmount > 0 {
      var swept := Transfer(a.tokens, c.ownerAta, c.adapterOut, owner, ownerAmount);
      if swept.None? {
        return Failure(TransferFailed), delivered;
      }
      TransferKeepsAccounts(env, a, c.ownerAta, c.adapterOut, owner, ownerAmount);
      ghost var before := a;
      a := a.(tokens := swept.value);
      KeepsAccountsTransitive(env, s, before, a);
    }
    return Success(a), delivered;
  }

  /** The program: one State, changed by successful calls only. */
  class Program {
    const env: Env
    var state: State

    ghost predicate Valid()
      reads this
    {
      Honest(env) && SeparateKeys(env) && WellFormed(state) && InitsHold(state)
    }

    constructor (env: Env, state: State)
      requires Honest(env) && SeparateKeys(env) && WellFormed(state) && InitsHold(state)
      ensures Valid() && this.env == env && this.state == state
    {
      this.env, this.state := env, state;
    }

    /** One call; a failed one is rolled back. delivered is what a withdrawal brought to the out vault. */
    method Execute(c: Call) returns (r: Result<Action, AdapterError>, delivered: nat)
      requires Valid()
      modifies this
      ensures Valid()
      ensures FailsWith(r, CallError(env, old(state), c))
      ensures r.Failure? ==> state == old(state)
      ensures r.Success? ==> Executed(env, old(state), state, c, r.value, delivered)
      ensures state.made == old(state).made + if r.Success? && r.value.Deposit? then Missing(old(state), c) else []
    {
      var done;
      done, delivered := Attempt(env, state, c);
      if done.Failure? {
        return Failure(done.error), delivered;
      }
      ExecutedKeepsInits(env, state, done.value.0, c, done.value.1, delivered);
      state := done.value.0;
      return Success(done.value.1), delivered;
    }
  }

  /** What a successful call does. */
  ghost predicate Executed(env: Env, a: State, b: State, c: Call, action: Action, delivered: nat) {
    && c.payload.Some? && c.payload.value.1 == action && c.inAmount > 0
    && c.ownerPda == env.derive(c.payload.value.0, c.liquidityMint)
    && c.adapterOut < |a.tokens| && c.outVault < |a.tokens|
    && a.tokens[c.adapterOut].owner == env.authority
    && Owns(a, c)
    && match action
       case Deposit(amount) => amount == c.inAmount && DepositDone(env, a, b, c)
       case Withdraw(ktIn) => ktIn == c.inAmount && WithdrawDone(env, a, b, c, delivered)
       case _ => false
  }

  ghost predicate DepositDone(env: Env, a: State, b: State, c: Call) {
    && c.minOutAmount == 0 && Lent(env, a, b, c)
    && DepositSettles(env, a, b, c)
    && KeepsBooks(a, b, c.obligation) && HasSetup(a, b, c) && b.obligations[c.obligation].owner == c.ownerPda
    && Forwarded(SlotsOf(a, c), c.reserve) == Active(SlotsOf(a, c))
    && Deposited(SlotsOf(a, c), SlotsOf(b, c), c.reserve)
  }

  ghost predicate WithdrawDone(env: Env, a: State, b: State, c: Call, delivered: nat) {
    && delivered == Redeemed(env, a, c) >= c.minOutAmount && PaidOn(env, a, b, c, c.outVault, delivered)
    && WithdrawSettles(env, a, b, c, delivered)
    && a.tokens[c.ownerAta].owner == c.ownerPda && c.ownerAta != c.adapterOut
    && KeepsBooks(a, b, c.obligation) && c.obligation in a.obligations && SameSetup(a, b)
    && b.obligations[c.obligation].owner == c.ownerPda
    && Forwarded(SlotsOf(a, c), c.reserve) == Active(SlotsOf(a, c))
    && Withdrawn(SlotsOf(a, c), SlotsOf(b, c), c.reserve)
  }

  /** Nothing reaches adapter_out in a deposit, so it must not be asked for anything. */
  function DepositCallError(env: Env, s: State, c: Call, owner: Key): Option<AdapterError> {
    if DepositError(env, s, c, owner).Some? then DepositError(env, s, c, owner)
    else if c.minOutAmount > 0 then Some(SlippageExceeded)
    else None
  }

  function WithdrawCallError(env: Env, s: State, c: Call, owner: Key): Option<AdapterError> {
    if WithdrawError(env, s, c, owner).Some? then WithdrawError(env, s, c, owner)
    else if Redeemed(env, s, c) < c.minOutAmount then Some(SlippageExceeded)
    else if Redeemed(env, s, c) > 0 && !SameMint(s, c.adapterOut, c.outVault) then Some(TransferFailed)
    else None
  }

  /** What stops a call, if anything, as a function of its arguments and the state at entry. */
  function CallError(env: Env, s: State, c: Call): Option<AdapterError> {
    if !NamesAccounts(s, c) then Some(AccountNotInitialized)
    else if s.tokens[c.adapterIn].owner != env.authority || s.tokens[c.adapterOut].owner != env.authority then
      Some(ScratchAtaOwnerMismatch)
    else if c.inAmount == 0 then Some(InvalidAmount)
    else if c.payload.None? then Some(InvalidActionPayload)
    else
      var (hash, action) := c.payload.value;
      var owner := env.derive(hash, c.liquidityMint);
      var short := s.tokens[c.adapterIn].amount < c.inAmount;
      match action
      case Borrow => Some(NotYetImplemented)
      case Repay => Some(if short then InsufficientInput else NotYetImplemented)
      case Deposit(amount) =>
        if short then Some(InsufficientInput)
        else if amount != c.inAmount then Some(AmountMismatch)
        else DepositCallError(env, s, c, owner)
      case Withdraw(ktIn) =>
        if ktIn != c.inAmount then Some(AmountMismatch) else WithdrawCallError(env, s, c, owner)
  }

  predicate NamesAccounts(s: State, c: Call) {
    c.inVault < |s.tokens| && c.outVault < |s.tokens| && c.adapterIn < |s.tokens| && c.adapterOut < |s.tokens|
  }

  /** execute: the checks before the dispatch, and the dispatch. */
  method Attempt(env: Env, s: State, c: Call) returns (r: Result<(State, Action), AdapterError>, delivered: nat)
    requires Honest(env) && SeparateKeys(env) && WellFormed(s)
    ensures FailsWith(r, CallError(env, s, c))
    ensures r.Success? ==> Executed(env, s, r.value.0, c, r.value.1, delivered)
  {
    delivered := 0;
    if !NamesAccounts(s, c) {
      return Failure(AccountNotInitialized), delivered;
    }
    if s.tokens[c.adapterIn].owner != env.authority || s.tokens[c.adapterOut].owner != env.authority {
      return Failure(ScratchAtaOwnerMismatch), delivered;
    }
    if c.inAmount == 0 {
      return Failure(InvalidAmount), delivered;
    }
    if c.payload.None? {
      return Failure(InvalidActionPayload), delivered;
    }
    var (hash, action) := c.payload.value;
    if (action.Deposit? || action.Repay?) && s.tokens[c.adapterIn].amount < c.inAmount {
      return Failure(InsufficientInput), delivered;
    }
    if action.Borrow? || action.Repay? {
      return Failure(NotYetImplemented), delivered;
    }
    if (if action.Deposit? then action.amount else action.ktIn) != c.inAmount {
      return Failure(AmountMismatch), delivered;
    }
    var owner := env.derive(hash, c.liquidityMint);
    var done;
    if action.Deposit? {
      done := DepositAndSweep(env, s, c, owner);
    } else {
      done, delivered := WithdrawAndSweep(env, s, c, owner);
    }
    r := if done.Success? then Success((done.value, action)) else Failure(done.error);
  }

  method DepositAndSweep(env: Env, s: State, c: Call, owner: Key) returns (r: Result<State, AdapterError>)
    requires Honest(env) && SeparateKeys(env) && WellFormed(s)
    requires owner != env.authority && owner != env.lender.authority
    requires c.adapterIn < |s.tokens| && s.tokens[c.adapterIn].owner == env.authority
    requires s.tokens[c.adapterIn].amount >= c.inAmount
    requires c.adapterOut < |s.tokens| && s.tokens[c.adapterOut].owner == env.authority
    requires c.outVault < |s.tokens|
    ensures FailsWith(r, DepositCallError(env, s, c, owner))
    ensures r.Success? ==> c.ownerPda == owner && Owns(s, c) && DepositDone(env, s, r.value, c)
  {
    var handled := HandleDeposit(env, s, c, owner);
    if handled.Failure? {
      return handled;
    }
    r := Sweep(env, handled.value, c, s.tokens[c.adapterOut].amount);
  }

  method WithdrawAndSweep(env: Env, s: State, c: Call, owner: Key) returns (r: Result<State, AdapterError>, delivered: nat)
    requires Honest(env) && SeparateKeys(env) && WellFormed(s)
    requires owner != env.authority && owner != env.lender.authority
    requires c.adapterOut < |s.tokens| && s.tokens[c.adapterOut].owner == env.authority
    requires c.outVault < |s.tokens|
    ensures FailsWith(r, WithdrawCallError(env, s, c, owner))
    ensures r.Success? ==> c.ownerPda == owner && Owns(s, c) && WithdrawDone(env, s, r.value, c, delivered)
  {
    var handled;
    handled, delivered := HandleWithdraw(env, s, c, owner);
    if handled.Failure? {
      return handled, delivered;
    }
    ReachesAdapterOut(env, s, handled.value, c, delivered);
    r := Sweep(env, handled.value, c, s.tokens[c.adapterOut].amount);
    if r.Success? {
      SweptOn(env, s, handled.value, r.value, c, delivered);
    }
  }

  lemma ReachesAdapterOut(env: Env, a: State, h: State, c: Call, delivered: nat)
    requires WithdrawSettles(env, a, h, c.(outVault := c.adapterOut), delivered) && c.ownerAta != c.adapterOut
    requires c.adapterOut < |a.tokens| && a.tokens[c.adapterOut].owner != env.lender.authority
    ensures c.adapterOut < |h.tokens| && Received(h, c, a.tokens[c.adapterOut].amount) == delivered
  {
  }

  /** What reached adapter_out goes on to the out vault. */
  lemma SweptOn(env: Env, a: State, h: State, b: State, c: Call, delivered: nat)
    requires PaidOn(env, a, h, c, c.adapterOut, delivered)
    requires WithdrawSettles(env, a, h, c.(outVault := c.adapterOut), delivered)
    requires KeepsAccounts(env, h, b) && b == h.(tokens := b.tokens)
    requires forall i {:trigger b.tokens[i]} :: 0 <= i < |h.tokens| ==>
               b.tokens[i].amount == h.tokens[i].amount - (if i == c.adapterOut then delivered else 0)
                                     + (if i == c.outVault then delivered else 0)
    ensures PaidOn(env, a, b, c, c.outVault, delivered)
    ensures WithdrawSettles(env, a, b, c, delivered)
  {
    KeepsAccountsTransitive(env, a, h, b);
    forall i {:trigger b.tokens[i]} | 0 <= i < |h.tokens|
      ensures b.tokens[i].amount + (if i == c.adapterOut then delivered else 0)
              == h.tokens[i].amount + (if i == c.outVault then delivered else 0)
    {
    }
  }

  /** By how much adapter_out has grown, and 0 when it has shrunk. */
  function Received(s: State, c: Call, preOut: nat): nat
    requires c.adapterOut < |s.tokens|
  {
    if s.tokens[c.adapterOut].amount <= preOut then 0 else s.tokens[c.adapterOut].amount - preOut
  }

  /** The post-CPI sweep: what adapter_out holds beyond its balance at entry goes to the out vault. */
  method Sweep(env: Env, s: State, c: Call, preOut: nat) returns (r: Result<State, AdapterError>)
    requires c.adapterOut < |s.tokens| && s.tokens[c.adapterOut].owner == env.authority && c.outVault < |s.tokens|
    ensures var received := Received(s, c, preOut);
            FailsWith(r, if received < c.minOutAmount then Some(SlippageExceeded)
                         else if received > 0 && !SameMint(s, c.adapterOut, c.outVault) then Some(TransferFailed)
                         else None)
    ensures var received := Received(s, c, preOut);
            r.Success? ==>
              && received >= c.minOutAmount
              && KeepsAccounts(env, s, r.value)
              && r.value == s.(tokens := r.value.tokens) && (received == 0 ==> r.value == s)
              && forall i {:trigger r.value.tokens[i]} :: 0 <= i < |s.tokens| ==>
                   r.value.tokens[i].amount == s.tokens[i].amount - (if i == c.adapterOut then received else 0)
                                                                  + (if i == c.outVault then received else 0)
  {
    var received := Received(s, c, preOut);
    if received < c.minOutAmount {
      return Failure(SlippageExceeded);
    }
    if received > 0 {
      var moved := Transfer(s.tokens, c.adapterOut, c.outVault, env.authority, received);
      if moved.None? {
        return Failure(TransferFailed);
      }
      TransferKeepsAccounts(env, s, c.adapterOut, c.outVault, env.authority, received);
      return Success(s.(tokens := moved.value));
    }
    return Success(s);
  }

  // ----- What follows for a caller -----

  /**
   A successful withdrawal, by which accounts coincide: adapter_out is back at its entry balance unless
   it is itself the out vault, the owner's account is empty unless it is, and the out vault has gained
   what was delivered, at least the minimum asked for.
   */
  lemma WithdrawBalances(env: Env, a: State, b: State, c: Call, action: Action, delivered: nat)
    requires Executed(env, a, b, c, action, delivered) && action.Withdraw?
    requires SeparateKeys(env) && a.tokens[c.outVault].owner != env.lender.authority
    ensures delivered >= c.minOutAmount
    ensures b.tokens[c.adapterOut].amount == a.tokens[c.adapterOut].amount <==> c.outVault != c.adapterOut || delivered == 0
    ensures b.tokens[c.ownerAta].amount == 0 <==> c.outVault != c.ownerAta || delivered == 0
    ensures c.outVault != c.ownerAta ==> b.tokens[c.outVault].amount == a.tokens[c.outVault].amount + delivered
  {
  }

  // ----- One reserve per obligation -----

  /** Every obligation is used with one reserve only, and holds it once or not at all. */
  ghost predicate OneReserve(s: State, use: Key -> Key) {
    forall o {:trigger s.obligations[o]} :: o in s.obligations ==>
      Active(s.obligations[o].slots) == [] || Active(s.obligations[o].slots) == [use(o)]
  }

  lemma {:induction false} OnlyActive(slots: seq<Key>, i: nat, r: Key, n: nat)
    requires i < |slots| && slots[i] == r != DEFAULT_KEY && n <= |slots|
    requires forall j :: 0 <= j < |slots| && j != i ==> slots[j] == DEFAULT_KEY
    ensures ActiveUpTo(slots, n) == if i < n then [r] else []
  {
    if n > 0 {
      OnlyActive(slots, i, r, n - 1);
    }
  }

  lemma {:induction false} ActiveGrows(slots: seq<Key>, m: nat, n: nat)
    requires m <= n <= |slots|
    ensures |ActiveUpTo(slots, m)| <= |ActiveUpTo(slots, n)|
  {
    if m < n {
      ActiveGrows(slots, m, n - 1);
    }
  }

  lemma TwoActive(slots: seq<Key>, i: nat, j: nat)
    requires i < j < |slots| && slots[i] != DEFAULT_KEY && slots[j] != DEFAULT_KEY
    ensures |Active(slots)| >= 2
  {
    ActiveGrows(slots, i + 1, j);
    ActiveGrows(slots, j + 1, |slots|);
  }

  lemma DepositedActive(a: seq<Key>, b: seq<Key>, r: Key)
    requires Deposited(a, b, r) && r != DEFAULT_KEY
    requires Active(a) == [] || Active(a) == [r]
    ensures Active(b) == [r]
  {
    ActiveIff(a, r);
    if r in a {
      assert r in Active(a);
    } else {
      assert r in [r];
      var i :| 0 <= i < |a| && a[i] == DEFAULT_KEY && b == a[i := r];
      OnlyActive(b, i, r, |b|);
    }
  }

  lemma WithdrawnActive(a: seq<Key>, b: seq<Key>, r: Key)
    requires Withdrawn(a, b, r)
    requires Active(a) == [] || Active(a) == [r]
    ensures Active(b) == [] || Active(b) == [r]
  {
    if b != a {
      var i :| 0 <= i < |a| && a[i] == r && b == a[i := DEFAULT_KEY];
      assert a[i := a[i]] == a;
      forall j | 0 <= j < |b|
        ensures b[j] == DEFAULT_KEY
      {
        if j != i && a[j] != DEFAULT_KEY {
          TwoActive(a, if i < j then i else j, if i < j then j else i);
        }
      }
      NoneActive(b, |b|);
    }
  }

  /**
   While every call names an obligation with the reserve it is used with, and never the default key, the
   reserves forwarded to refresh_obligation are the active slots in every reachable state.
   */
  lemma OneReserveKept(env: Env, a: State, b: State, c: Call, action: Action, delivered: nat, use: Key -> Key)
    requires Executed(env, a, b, c, action, delivered)
    requires OneReserve(a, use)
    requires c.reserve == use(c.obligation) != DEFAULT_KEY
    ensures OneReserve(b, use)
  {
    forall o | o in b.obligations
      ensures Active(b.obligations[o].slots) == [] || Active(b.obligations[o].slots) == [use(o)]
    {
      if o != c.obligation {
        assert b.obligations[o] == a.obligations[o];
      } else if action.Deposit? {
        FreshIsEmpty(c.ownerPda);
        DepositedActive(SlotsOf(a, c), SlotsOf(b, c), c.reserve);
      } else {
        FreshIsEmpty(c.ownerPda);
        WithdrawnActive(SlotsOf(a, c), SlotsOf(b, c), c.reserve);
      }
    }
  }

  lemma FreshIsEmpty(owner: Key)
    ensures Active(FreshObligation(owner).slots) == []
  {
    ActiveIff(FreshObligation(owner).slots, DEFAULT_KEY);
  }

  /** In such a state the refresh step never fails for the accounts it forwards. */
  lemma RefreshPasses(s: State, c: Call, use: Key -> Key)
    requires WellFormed(s) && OneReserve(s, use)
    requires c.reserve == use(c.obligation) != DEFAULT_KEY
    ensures Forwarded(SlotsOf(s, c), c.reserve) == Active(SlotsOf(s, c))
  {
    FreshIsEmpty(c.ownerPda);
    ForwardedIff(SlotsOf(s, c), c.reserve);
  }

  // ----- Over whole runs -----

  /** The set-up CPIs of a successful call. */
  function InitsOf(s: State, c: Call, action: Action): seq<Init> {
    if action.Deposit? then Missing(s, c) else []
  }

  lemma ExecutedKeepsInits(env: Env, a: State, b: State, c: Call, action: Action, delivered: nat)
    requires Executed(env, a, b, c, action, delivered) && InitsHold(a)
    ensures InitsHold(b) && b.made == a.made + InitsOf(a, c, action)
  {
    if action.Deposit? {
      MissingIsNew(a, b, c);
    } else {
      forall i | 0 <= i < |b.made|
        ensures Exists(b, b.made[i])
      {
        assert Exists(a, a.made[i]);
      }
    }
  }

  /** One call against the program's state: it succeeds, or nothing happens. */
  ghost predicate Step(env: Env, a: State, b: State, c: Call) {
    if CallError(env, a, c).Some? then b == a
    else exists action, delivered :: Executed(env, a, b, c, action, delivered)
  }

  ghost predicate Run(env: Env, states: seq<State>, calls: seq<Call>) {
    && |states| == |calls| + 1
    && forall i {:trigger calls[i]} :: 0 <= i < |calls| ==> Step(env, states[i], states[i + 1], calls[i])
  }

  /** Every mint the lender does not issue is conserved, and accounts keep their mint and owner. */
  lemma {:induction false} RunConserves(env: Env, states: seq<State>, calls: seq<Call>, n: nat)
    requires Run(env, states, calls) && n <= |calls|
    ensures KeepsAccounts(env, states[0], states[n])
  {
    if n > 0 {
      RunConserves(env, states, calls, n - 1);
      assert Step(env, states[n - 1], states[n], calls[n - 1]);
      KeepsAccountsTransitive(env, states[0], states[n - 1], states[n]);
    }
  }

  /** The set-up CPIs that one call of a run needs: those missing at entry, if it is a deposit that succeeds. */
  function InitsAt(env: Env, s: State, c: Call): seq<Init> {
    if CallError(env, s, c).None? && c.payload.Some? && c.payload.value.1.Deposit? then Missing(s, c) else []
  }

  /** Those of the first n calls. */
  function InitsUpTo(at: (State, Call) -> seq<Init>, states: seq<State>, calls: seq<Call>, n: nat): seq<Init>
    requires n <= |calls| <= |states|
  {
    if n == 0 then [] else InitsUpTo(at, states, calls, n - 1) + at(states[n - 1], calls[n - 1])
  }

  lemma StepMakesInits(env: Env, a: State, b: State, c: Call)
    requires Step(env, a, b, c)
    ensures b.made == a.made + InitsAt(env, a, c)
  {
    if CallError(env, a, c).None? {
      var action, delivered :| Executed(env, a, b, c, action, delivered);
    }
  }

  lemma StepKeepsInits(env: Env, a: State, b: State, c: Call)
    requires Step(env, a, b, c) && InitsHold(a)
    ensures InitsHold(b)
  {
    if CallError(env, a, c).None? {
      var action, delivered :| Executed(env, a, b, c, action, delivered);
      ExecutedKeepsInits(env, a, b, c, action, delivered);
    }
  }

  lemma {:induction false} RunMakesInits(at: (State, Call) -> seq<Init>, states: seq<State>, calls: seq<Call>, n: nat)
    requires n <= |calls| < |states|
    requires forall i {:trigger calls[i]} :: 0 <= i < |calls| ==> states[i + 1].made == states[i].made + at(states[i], calls[i])
    ensures states[n].made == states[0].made + InitsUpTo(at, states, calls, n)
  {
    if n > 0 {
      RunMakesInits(at, states, calls, n - 1);
      var c := calls[n - 1];
      assert states[n].made == states[n - 1].made + at(states[n - 1], c);
    }
  }

  lemma {:induction false} RunKeepsInits(env: Env, states: seq<State>, calls: seq<Call>, n: nat)
    requires Run(env, states, calls) && InitsHold(states[0]) && n <= |calls|
    ensures InitsHold(states[n])
  {
    if n > 0 {
      RunKeepsInits(env, states, calls, n - 1);
      assert Step(env, states[n - 1], states[n], calls[n - 1]);
      StepKeepsInits(env, states[n - 1], states[n], calls[n - 1]);
    }
  }

  /** Over any run exactly the missing set-up CPIs are made, and none of them twice or after it was made before. */
  lemma RunInitsOnce(env: Env, states: seq<State>, calls: seq<Call>)
    requires Run(env, states, calls) && InitsHold(states[0])
    ensures var made := InitsUpTo((s, c) => InitsAt(env, s, c), states, calls, |calls|);
            && states[|calls|].made == states[0].made + made
            && (forall i, j :: 0 <= i < j < |made| ==> made[i] != made[j])
            && forall i :: 0 <= i < |made| ==> made[i] !in states[0].made
  {
    var at := (s, c) => InitsAt(env, s, c);
    forall i {:trigger calls[i]} | 0 <= i < |calls|
      ensures states[i + 1].made == states[i].made + at(states[i], calls[i])
    {
      StepMakesInits(env, states[i], states[i + 1], calls[i]);
    }
    RunMakesInits(at, states, calls, |calls|);
    RunKeepsInits(env, states, calls, |calls|);
    InitsApart(states[0].made, InitsUpTo(at, states, calls, |calls|), states[|calls|].made);
  }

  lemma InitsApart(before: seq<Init>, after: seq<Init>, all: seq<Init>)
    requires all == before + after
    requires forall i, j :: 0 <= i < j < |all| ==> all[i] != all[j]
    ensures forall i, j :: 0 <= i < j < |after| ==> after[i] != after[j]
    ensures forall i :: 0 <= i < |after| ==> after[i] !in before
  {
    forall i | 0 <= i < |after|
      ensures after[i] !in before
      ensures forall j :: i < j < |after| ==> after[i] != after[j]
    {
      assert all[|before| + i] == after[i];
      assert forall k :: 0 <= k < |before| ==> before[k] == all[k];
      assert forall j :: i < j < |after| ==> after[j] == all[|before| + j];
    }
  }

  /** Every call names an obligation with the reserve it is used with, never the default key. */
  ghost predicate UsesOneReserve(calls: seq<Call>, use: Key -> Key) {
    forall i {:trigger calls[i]} :: 0 <= i < |calls| ==> calls[i].reserve == use(calls[i].obligation) != DEFAULT_KEY
  }

  lemma StepKeepsOneReserve(env: Env, a: State, b: State, c: Call, use: Key -> Key)
    requires Step(env, a, b, c) && WellFormed(a) && OneReserve(a, use)
    requires c.reserve == use(c.obligation) != DEFAULT_KEY
    ensures WellFormed(b) && OneReserve(b, use)
  {
    if CallError(env, a, c).None? {
      var action, delivered :| Executed(env, a, b, c, action, delivered);
      OneReserveKept(env, a, b, c, action, delivered, use);
    }
  }

  lemma {:induction false} RunKeepsOneReserve(env: Env, states: seq<State>, calls: seq<Call>, use: Key -> Key, n: nat)
    requires Run(env, states, calls) && UsesOneReserve(calls, use) && n <= |calls|
    requires WellFormed(states[0]) && OneReserve(states[0], use)
    ensures WellFormed(states[n]) && OneReserve(states[n], use)
  {
    if n > 0 {
      RunKeepsOneReserve(env, states, calls, use, n - 1);
      var c := calls[n - 1];
      StepKeepsOneReserve(env, states[n - 1], states[n], c, use);
    }
  }

  /**
   A run in which every call names an obligation with the reserve it is used with, never the default
   key, forwards the active slots at every call, whatever the order of deposits and withdrawals.
   */
  lemma RunForwardsActive(env: Env, states: seq<State>, calls: seq<Call>, use: Key -> Key, i: nat)
    requires Run(env, states, calls) && UsesOneReserve(calls, use) && i < |calls|
    requires WellFormed(states[0]) && OneReserve(states[0], use)
    ensures Forwarded(SlotsOf(states[i], calls[i]), calls[i].reserve) == Active(SlotsOf(states[i], calls[i]))
  {
    RunKeepsOneReserve(env, states, calls, use, i);
    RefreshPasses(states[i], calls[i], use);
  }

  /**
   While derived owners are distinct, a run whose calls all carry other hashes or mints leaves an
   owner's obligation as it was.
   */
  lemma {:induction false} OthersLeaveMineAlone(env: Env, states: seq<State>, calls: seq<Call>, hash: Key, mint: Key, mine: Key, n: nat)
    requires Run(env, states, calls) && n <= |calls|
    requires forall h, m, h', m' :: env.derive(h, m) == env.derive(h', m') ==> h == h' && m == m'
    requires mine in states[0].obligations && states[0].obligations[mine].owner == env.derive(hash, mint)
    requires forall i {:trigger calls[i]} :: 0 <= i < |calls| && calls[i].payload.Some? ==>
               calls[i].payload.value.0 != hash || calls[i].liquidityMint != mint
    ensures mine in states[n].obligations && states[n].obligations[mine] == states[0].obligations[mine]
  {
    if n > 0 {
      OthersLeaveMineAlone(env, states, calls, hash, mint, mine, n - 1);
      assert Step(env, states[n - 1], states[n], calls[n - 1]);
    }
  }
}
