/** Donation credits: balances, the transaction log with its holds, and the
    transfer between accounts. One login group; a table is a map or a sequence
    of the columns that are used, and a statement that fails changes nothing. */
module Ledger {
  import opened Wrappers

  /** The payment statuses the code tells apart. */
  datatype Status = Completed | Reversal | OtherStatus(name: string)

  /** A row of the transaction log. `Reversal` stands for Cancelled_Reversed,
      Reversed and Refunded; `hold` is `hold_until`. */
  datatype Row = Row(account: int, email: string, credits: int, gross: real, txn: string, parent: string,
                     status: Status, hold: Option<int>)

  /** A row of the trust table. */
  datatype Trust = Trust(account: int, email: string, deleted: bool)

  datatype Tables = Tables(accounts: set<int>, balances: map<int, int>, log: seq<Row>, trust: seq<Trust>)

  // ---- deposits (LoginServer.php) --------------------------------------------

  /** Whether each statement of one `depositCredits` call succeeds: the account
      look-up, the record look-up, and the insert or update. */
  datatype DepositRun = DepositRun(account: bool, record: bool, write: bool)

  const ALL_WELL := DepositRun(true, true, true)

  function Balance(balances: map<int, int>, account: int): int {
    if account in balances then balances[account] else 0
  }

  /** `hasCreditsRecord`: a failing look-up reads as "no record". */
  predicate HasRecord(balances: map<int, int>, account: int, run: DepositRun) {
    run.record && account in balances
  }

  /** The outcome of a deposit. Inserting a second record fails on the primary
      key of the table. */
  predicate Deposits(t: Tables, account: int, run: DepositRun) {
    run.account && account in t.accounts && run.write && (account in t.balances ==> run.record)
  }

  function Credit(balances: map<int, int>, account: int, credits: int): (b: map<int, int>)
    ensures forall a :: Balance(b, a) == Balance(balances, a) + (if a == account then credits else 0)
  {
    balances[account := Balance(balances, account) + credits]
  }

  // ---- what the log says -----------------------------------------------------

  /** The credits a row stands for: none while the payment is held. */
  function Settled(row: Row): int {
    if row.hold.None? then row.credits else 0
  }

  function SettledFor(log: seq<Row>, account: int): int {
    if log == [] then 0
    else
      var last := log[|log| - 1];
      SettledFor(log[..|log| - 1], account) + (if last.account == account then Settled(last) else 0)
  }

  /** Each balance is its starting value plus the settled credits of the log. */
  ghost predicate Agrees(start: map<int, int>, t: Tables) {
    forall a :: Balance(t.balances, a) == Balance(start, a) + SettledFor(t.log, a)
  }

  predicate IsReversed(log: seq<Row>, txn: string) {
    exists i :: 0 <= i < |log| && log[i].status.Reversal? && log[i].parent == txn
  }

  /** What every row written by the handler satisfies, and that no payment is
      logged as completed twice. */
  predicate LogOk(log: seq<Row>) {
    && (forall i :: 0 <= i < |log| && !log[i].status.Completed? ==> log[i].credits == 0 && log[i].hold.None?)
    && (forall i, j :: 0 <= i < j < |log| && log[i].status.Completed? && log[j].status.Completed? ==>
      log[i].txn != log[j].txn)
  }

  predicate IsLogged(log: seq<Row>, txn: string) {
    exists i :: 0 <= i < |log| && log[i].status.Completed? && log[i].txn == txn
  }

  // ---- notifications (PaymentNotifyRequest.php) --------------------------------

  /** A notification that names a known receiver and game server, with what the
      configuration and the environment contribute: `verified` is `txnIsValid`,
      `now` the clock, `insert` whether the log insert succeeds. */
  datatype Notice = Notice(account: int, email: string, amount: real, exchangeable: bool, txn: string, parent: string,
                           status: Status, verified: bool, now: int, deposit: DepositRun, insert: bool)

  datatype Settings = Settings(minimum: real, rate: real, holdHours: nat)

  predicate IsTrusted(trust: seq<Trust>, account: int, email: string) {
    exists i :: 0 <= i < |trust| && trust[i].account == account && trust[i].email == email
  }

  /** Whether the payment is exchanged for credits at all. */
  predicate Exchanges(n: Notice, c: Settings) {
    n.status.Completed? && n.exchangeable && n.amount >= c.minimum
  }

  function CreditsOf(n: Notice, c: Settings): int
    requires c.rate > 0.0
  {
    if Exchanges(n, c) then (n.amount / c.rate).Floor else 0
  }

  /** An untrusted donor's payment is held when a hold is configured. */
  predicate IsHeld(t: Tables, n: Notice, c: Settings) {
    Exchanges(n, c) && c.holdHours > 0 && !IsTrusted(t.trust, n.account, n.email)
  }

  /** A hold joins the donor's running hold, if there is one. */
  function RunningHold(log: seq<Row>, account: int, email: string, now: int): Option<int> {
    if log == [] then None
    else
      var r := log[0];
      if r.account == account && r.email == email && r.hold.Some? && r.hold.value > now && r.status.Completed? then
        r.hold
      else RunningHold(log[1..], account, email, now)
  }

  function HoldUntil(t: Tables, n: Notice, c: Settings): int {
    var running := RunningHold(t.log, n.account, n.email, n.now);
    if running.Some? then running.value else n.now + c.holdHours * 60 * 60
  }

  function NewRow(t: Tables, n: Notice, c: Settings): Row
    requires c.rate > 0.0
  {
    Row(n.account, n.email, CreditsOf(n, c), n.amount, n.txn, n.parent, n.status,
        if IsHeld(t, n, c) then Some(HoldUntil(t, n, c)) else None)
  }

  /** Whether the notification deposits, and whether it writes its row. */
  predicate NoticeDeposits(t: Tables, n: Notice, c: Settings) {
    Exchanges(n, c) && !IsHeld(t, n, c) && Deposits(t, n.account, n.deposit)
  }

  predicate NoticeLogs(n: Notice) {
    n.verified && n.insert
  }

  function AfterNotice(t: Tables, n: Notice, c: Settings): Tables
    requires c.rate > 0.0
  {
    t.(balances := if NoticeDeposits(t, n, c) then Credit(t.balances, n.account, CreditsOf(n, c)) else t.balances,
       log := if NoticeLogs(n) then t.log + [NewRow(t, n, c)] else t.log)
  }

  lemma SettledSnoc(log: seq<Row>, row: Row, account: int)
    ensures SettledFor(log + [row], account) == SettledFor(log, account) +
      (if row.account == account then Settled(row) else 0)
  {
    assert (log + [row])[..|log|] == log;
  }

  /** The credits of a payment are its amount divided by the rate, rounded down,
      when it is completed, exchangeable and large enough, and none otherwise. */
  lemma WhatIsCredited(n: Notice, c: Settings)
    requires c.rate > 0.0
    ensures if n.status.Completed? && n.exchangeable && n.amount >= c.minimum
      then CreditsOf(n, c) as real * c.rate <= n.amount < (CreditsOf(n, c) as real + 1.0) * c.rate
      else CreditsOf(n, c) == 0
  {
    if Exchanges(n, c) { RoundedDown(n.amount, c.rate); }
  }

  lemma RoundedDown(x: real, y: real)
    requires y > 0.0
    ensures (x / y).Floor as real * y <= x < ((x / y).Floor as real + 1.0) * y
  {
    TimesQuotient(x, y);
    Below(x, y, x / y, (x / y).Floor as real);
    Above(x, y, x / y, (x / y).Floor as real + 1.0);
  }

  lemma TimesQuotient(x: real, y: real)
    requires y > 0.0
    ensures x / y * y == x
  {
  }

  lemma Below(x: real, y: real, q: real, b: real)
    requires y > 0.0 && q * y == x && b <= q
    ensures b * y <= x
  {
    Scaled(b, q, y);
  }

  lemma Above(x: real, y: real, q: real, b: real)
    requires y > 0.0 && q * y == x && q < b
    ensures x < b * y
  {
    Scaled(q, b, y);
  }

  lemma Scaled(a: real, b: real, y: real)
    requires y > 0.0 && a <= b
    ensures a * y <= b * y && (a < b ==> a * y < b * y)
  {
  }

  /** The hold that is joined is one of the donor's that still runs. */
  lemma {:induction false} WhichHoldRuns(log: seq<Row>, account: int, email: string, now: int)
    ensures var running := RunningHold(log, account, email, now);
      if running.None?
      then forall r :: r in log && r.account == account && r.email == email && r.status.Completed? && r.hold.Some? ==>
             r.hold.value <= now
      else running.value > now &&
           (exists r :: r in log && r.account == account && r.email == email && r.status.Completed? &&
             r.hold == running)
  {
    if log != [] { WhichHoldRuns(log[1..], account, email, now); }
  }

  /** What becomes of a notification. A payment worth exchanging is credited at
      once when no hold is configured or the donor is trusted, and held, till the
      donor's running hold ends or for the configured hours, otherwise. */
  lemma WhatNoticeDoes(t: Tables, n: Notice, c: Settings)
    requires c.rate > 0.0
    ensures var after := AfterNotice(t, n, c);
      var eligible := n.status.Completed? && n.exchangeable && n.amount >= c.minimum;
      var trusted := exists i :: 0 <= i < |t.trust| && t.trust[i].account == n.account && t.trust[i].email == n.email;
      var held := eligible && c.holdHours > 0 && !trusted;
      && after.accounts == t.accounts && after.trust == t.trust
      && (forall a :: a != n.account ==> Balance(after.balances, a) == Balance(t.balances, a))
      && (!eligible || held ==> after.balances == t.balances)
      && (eligible && !held && n.account in t.accounts && n.deposit == ALL_WELL ==>
           Balance(after.balances, n.account) == Balance(t.balances, n.account) + CreditsOf(n, c))
      && (!(n.verified && n.insert) ==> after.log == t.log)
      && (n.verified && n.insert ==>
           (var hold := if !held then None
              else if RunningHold(t.log, n.account, n.email, n.now).Some?
              then RunningHold(t.log, n.account, n.email, n.now)
              else Some(n.now + c.holdHours * 3600);
            after.log ==
              t.log + [Row(n.account, n.email, CreditsOf(n, c), n.amount, n.txn, n.parent, n.status, hold)]))
  {
    assert IsTrusted(t.trust, n.account, n.email) <==>
      exists i :: 0 <= i < |t.trust| && t.trust[i].account == n.account && t.trust[i].email == n.email;
  }

  /** Balance and log keep agreeing across a notification exactly when what it
      deposits is what it logs: a settled payment worth credits must do both or
      neither. It does one without the other when the account is unknown, a
      statement fails, or the sender was accepted by address alone (then no row
      is written). */
  lemma NoticeAgreement(start: map<int, int>, t: Tables, n: Notice, c: Settings)
    requires c.rate > 0.0 && Agrees(start, t)
    ensures Agrees(start, AfterNotice(t, n, c)) <==>
      (CreditsOf(n, c) == 0 || IsHeld(t, n, c) || Deposits(t, n.account, n.deposit) == NoticeLogs(n))
  {
    var t1 := AfterNotice(t, n, c);
    var row := NewRow(t, n, c);
    forall a ensures Balance(t1.balances, a) - SettledFor(t1.log, a) == Balance(start, a) +
      (if a != n.account then 0
       else (if NoticeDeposits(t, n, c) then CreditsOf(n, c) else 0) - (if NoticeLogs(n) then Settled(row) else 0))
    {
      SettledSnoc(t.log, row, a);
    }
    assert Agrees(start, t1) ==>
      Balance(t1.balances, n.account) == Balance(start, n.account) + SettledFor(t1.log, n.account);
  }

  /** A payment of a configured minimum that is not negative is worth no negative
      credits. */
  lemma CreditsAreNatural(n: Notice, c: Settings)
    requires c.rate > 0.0 && c.minimum >= 0.0
    ensures CreditsOf(n, c) >= 0
  {
    if Exchanges(n, c) { Quotient(n.amount, c.rate); }
  }

  lemma Quotient(x: real, y: real)
    requires x >= 0.0 && y > 0.0
    ensures x / y >= 0.0
  {
    var q := x / y;
    assert q * y == x;
  }

  /** A verified payment whose row cannot be written: the credits are on the
      balance, and nothing in the log stands for them. */
  lemma UnloggedDeposit() returns (t: Tables, n: Notice, c: Settings)
    ensures c.rate > 0.0 && n.status.Completed? && n.verified && n.deposit == ALL_WELL && !n.insert
    ensures Agrees(t.balances, t) && !Agrees(t.balances, AfterNotice(t, n, c))
    ensures Balance(AfterNotice(t, n, c).balances, n.account) == 10 && AfterNotice(t, n, c).log == []
  {
    t := Tables({7}, map[], [], []);
    n := Notice(7, "donor", 10.0, true, "T1", "", Completed, true, 0, ALL_WELL, false);
    c := Settings(2.0, 1.0, 0);
    assert CreditsOf(n, c) == 10;
    NoticeAgreement(t.balances, t, n, c);
  }

  // ---- held payments (Flux.php) --------------------------------------------------

  /** Whether each statement of one `processHeldCredits` call succeeds: the query
      for the held rows, the look-up of a reversal for each row, the cancelling
      update, the deposit of each accepted row, the look-up and the insert of the
      donor in the trust table, and the releasing update. */
  datatype HeldRun = HeldRun(read: bool, reversal: nat -> bool, cancel: bool, deposit: nat -> DepositRun,
                             trusted: nat -> bool, trust: nat -> bool, release: bool)

  const HELD_WELL := HeldRun(true, (i: nat) => true, true, (k: nat) => ALL_WELL, (k: nat) => true, (k: nat) => true,
      true)

  /** The first query: held, completed, for an account. */
  predicate IsWaiting(row: Row) {
    row.account > 0 && row.hold.Some? && row.status.Completed?
  }

  /** A reversal that is found; a failing look-up finds none. */
  predicate SeesReversal(log: seq<Row>, run: HeldRun, i: nat)
    requires i < |log|
  {
    IsReversed(log, log[i].txn) && run.reversal(i)
  }

  predicate IsCancelled(log: seq<Row>, run: HeldRun, i: nat)
    requires i < |log|
  {
    run.read && IsWaiting(log[i]) && SeesReversal(log, run, i)
  }

  predicate IsAccepted(log: seq<Row>, run: HeldRun, now: int, i: nat)
    requires i < |log|
  {
    run.read && IsWaiting(log[i]) && !SeesReversal(log, run, i) && log[i].hold.value <= now
  }

  /** What the loop over the first `n` rows collects. */
  function CancelIds(log: seq<Row>, run: HeldRun, n: nat): seq<string>
    requires n <= |log|
  {
    if n == 0 then []
    else
      var before := CancelIds(log, run, n - 1);
      if IsCancelled(log, run, n - 1) then before + [log[n - 1].txn] else before
  }

  function AcceptedRows(log: seq<Row>, run: HeldRun, now: int, n: nat): seq<Row>
    requires n <= |log|
  {
    if n == 0 then []
    else
      var before := AcceptedRows(log, run, now, n - 1);
      if IsAccepted(log, run, now, n - 1) then before + [log[n - 1]] else before
  }

  function Accepted(log: seq<Row>, run: HeldRun, now: int): seq<Row> {
    AcceptedRows(log, run, now, |log|)
  }

  function Ids(rows: seq<Row>): seq<string> {
    if rows == [] then [] else Ids(rows[..|rows| - 1]) + [rows[|rows| - 1].txn]
  }

  /** `UPDATE ... SET credits = 0, hold_until = NULL WHERE txn_id IN (...)` */
  function Cancel(log: seq<Row>, ids: seq<string>): (r: seq<Row>)
    ensures |r| == |log|
  {
    seq(|log|, i requires 0 <= i < |log| => if log[i].txn in ids then log[i].(credits := 0, hold := None) else log[i])
  }

  /** `UPDATE ... SET hold_until = NULL WHERE txn_id IN (...)` */
  function Release(log: seq<Row>, ids: seq<string>): (r: seq<Row>)
    ensures |r| == |log|
  {
    seq(|log|, i requires 0 <= i < |log| => if log[i].txn in ids then log[i].(hold := None) else log[i])
  }

  /** Whether the deposit of the row at `k` succeeds, after those before it. */
  predicate DepositsRow(t: Tables, rows: seq<Row>, run: HeldRun, k: nat)
    requires k < |rows|
  {
    Deposits(t.(balances := DepositAll(t, rows[..k], run)), rows[k].account, run.deposit(k))
  }

  /** The deposits of a list of rows; a failing one is passed over. */
  function DepositAll(t: Tables, rows: seq<Row>, run: HeldRun): map<int, int>
    decreases |rows|, 1
  {
    if rows == [] then t.balances
    else
      var k := |rows| - 1;
      var before := DepositAll(t, rows[..k], run);
      if Deposits(t.(balances := before), rows[k].account, run.deposit(k))
        then Credit(before, rows[k].account, rows[k].credits) else before
  }

  predicate IsTrustedNow(trust: seq<Trust>, account: int, email: string) {
    exists i :: 0 <= i < |trust| && !trust[i].deleted && trust[i].account == account && trust[i].email == email
  }

  function TrustAll(trust: seq<Trust>, rows: seq<Row>, run: HeldRun): seq<Trust> {
    if rows == [] then trust
    else
      var k := |rows| - 1;
      var before := TrustAll(trust, rows[..k], run);
      if (run.trusted(k) && IsTrustedNow(before, rows[k].account, rows[k].email)) || !run.trust(k) then before
      else before + [Trust(rows[k].account, rows[k].email, false)]
  }

  /** The log after `processHeldCredits`. */
  function Processed(log: seq<Row>, now: int, run: HeldRun): (r: seq<Row>)
    ensures |r| == |log|
  {
    var cancelled := if run.cancel then Cancel(log, CancelIds(log, run, |log|)) else log;
    if run.release then Release(cancelled, Ids(Accepted(log, run, now))) else cancelled
  }

  /** `processHeldCredits` */
  function AfterHeld(t: Tables, now: int, run: HeldRun): Tables {
    var accepted := Accepted(t.log, run, now);
    Tables(t.accounts, DepositAll(t, accepted, run), Processed(t.log, now, run), TrustAll(t.trust, accepted, run))
  }

  // ---- transfers (Athena.php) ------------------------------------------------

  /** Whether each statement of one transfer succeeds. */
  datatype TransferRun = TransferRun(accounts: bool, record: bool, balance: bool,
                                     debit: DepositRun, credit: DepositRun, restore: DepositRun)

  /** `true`, `false`, -1, -2 and -3. */
  datatype TransferResult = Transferred | Failed | NoAccount | NoBalance | NoCharacter

  /** The three deposits of a transfer, in the order they happen. */
  predicate Debits(t: Tables, from: int, run: TransferRun) {
    Deposits(t, from, run.debit)
  }

  predicate CreditsTarget(t: Tables, from: int, target: int, credits: int, run: TransferRun) {
    Deposits(t.(balances := Credit(t.balances, from, -credits)), target, run.credit)
  }

  predicate Restores(t: Tables, from: int, credits: int, run: TransferRun) {
    Deposits(t.(balances := Credit(t.balances, from, -credits)), from, run.restore)
  }

  /** `transferCredits`: the target account, if the character is known, and the
      balances and result afterwards. */
  function Transfer(t: Tables, from: int, target: Option<int>, credits: int, run: TransferRun)
      : (map<int, int>, TransferResult) {
    if target.None? then (t.balances, NoCharacter)
    else if !run.accounts || from == target.value || from !in t.accounts || target.value !in t.accounts then
      (t.balances, NoAccount)
    else if !run.record || from !in t.balances then (t.balances, NoBalance)
    else if !run.balance then (t.balances, Failed)
    else if t.balances[from] < credits then (t.balances, NoBalance)
    else if !Debits(t, from, run) then (t.balances, Failed)
    else
      var debited := Credit(t.balances, from, -credits);
      if CreditsTarget(t, from, target.value, credits, run) then (Credit(debited, target.value, credits), Transferred)
      else if Restores(t, from, credits, run) then (Credit(debited, from, credits), Failed)
      else (debited, Failed)
  }

  /** The run in which the transfer loses its credits: the debit succeeds, and
      both the target's deposit and the restoring one fail. */
  predicate Loses(t: Tables, from: int, target: Option<int>, credits: int, run: TransferRun) {
    && target.Some? && from != target.value && from in t.accounts && target.value in t.accounts
    && run.accounts && run.record && run.balance
    && from in t.balances && t.balances[from] >= credits && Debits(t, from, run)
    && !CreditsTarget(t, from, target.value, credits, run) && !Restores(t, from, credits, run)
  }

  /** True means exactly the amount has moved between two different accounts;
      any other result leaves every balance as it was, except in the losing run,
      which takes exactly the amount from the sender. */
  lemma TransferMoves(t: Tables, from: int, target: Option<int>, credits: int, run: TransferRun)
    ensures var (after, result) := Transfer(t, from, target, credits, run);
      && (result.Transferred? ==> target.Some? && from != target.value)
      && (Loses(t, from, target, credits, run) ==> result.Failed?)
      && forall a :: Balance(after, a) - Balance(t.balances, a) ==
           (if a == from && (result.Transferred? || Loses(t, from, target, credits, run)) then -credits
            else if result.Transferred? && a == target.value then credits
            else 0)
  {
  }

  /** Neither the target's deposit nor the restoring one can be written: the
      sender's five credits are gone. */
  lemma LosingTransfer() returns (t: Tables, run: TransferRun)
    ensures Loses(t, 1, Some(2), 5, run) && Balance(t.balances, 1) == 10
    ensures Balance(Transfer(t, 1, Some(2), 5, run).0, 1) == 5 && Balance(Transfer(t, 1, Some(2), 5, run).0, 2) == 0
  {
    t := Tables({1, 2}, map[1 := 10], [], []);
    run := TransferRun(true, true, true, ALL_WELL, DepositRun(true, true, false), DepositRun(true, true, false));
  }

  /** When the transfer says what. */
  lemma TransferSays(t: Tables, from: int, target: Option<int>, credits: int, run: TransferRun)
    ensures var result := Transfer(t, from, target, credits, run).1;
      var found := target.Some? && run.accounts && from != target.value && from in t.accounts &&
        target.value in t.accounts;
      var recorded := found && run.record && from in t.balances;
      var covered := recorded && run.balance && t.balances[from] >= credits;
      var debited := covered && run.debit.account && run.debit.record && run.debit.write;
      && (result.NoCharacter? <==> target.None?)
      && (result.NoAccount? <==> target.Some? && !found)
      && (result.NoBalance? <==> found && (!recorded || (run.balance && t.balances[from] < credits)))
      && (result.Transferred? <==>
           debited && run.credit.account && run.credit.write && (target.value in t.balances ==> run.credit.record))
  {
  }

  function TotalOver(accounts: seq<int>, balances: map<int, int>): int {
    if accounts == [] then 0 else Balance(balances, accounts[0]) + TotalOver(accounts[1..], balances)
  }

  function Occurs(a: int, accounts: seq<int>): int {
    if a in accounts then 1 else 0
  }

  lemma {:induction false} TotalChange(accounts: seq<int>, before: map<int, int>, after: map<int, int>, a: int,
      b: int, x: int, y: int)
    requires forall i, j :: 0 <= i < j < |accounts| ==> accounts[i] != accounts[j]
    requires forall c :: Balance(after, c) == Balance(before, c) + (if c == a then x else if c == b then y else 0)
    requires a != b
    ensures TotalOver(accounts, after) == TotalOver(accounts, before) + Occurs(a, accounts) * x +
      Occurs(b, accounts) * y
  {
    if accounts != [] {
      TotalChange(accounts[1..], before, after, a, b, x, y);
      assert forall c :: c in accounts <==> c == accounts[0] || c in accounts[1..];
    }
  }

  /** The total over all accounts stays the same, but for the losing run, and a
      transfer of a non-negative amount makes no balance negative. */
  lemma TransferConserves(t: Tables, from: int, target: Option<int>, credits: int, run: TransferRun, accounts: seq<int>)
    requires forall i, j :: 0 <= i < j < |accounts| ==> accounts[i] != accounts[j]
    requires from in accounts && (target.Some? ==> target.value in accounts)
    ensures var (after, result) := Transfer(t, from, target, credits, run);
      && TotalOver(accounts, after) == TotalOver(accounts, t.balances) -
        (if Loses(t, from, target, credits, run) then credits else 0)
      && (credits >= 0 && (forall a :: Balance(t.balances, a) >= 0) ==> forall a :: Balance(after, a) >= 0)
  {
    TransferMoves(t, from, target, credits, run);
    var (after, result) := Transfer(t, from, target, credits, run);
    var moved := result.Transferred?;
    var lost := Loses(t, from, target, credits, run);
    var other := if moved then target.value else from + 1;
    TotalChange(accounts, t.balances, after, from, other,
      if moved || lost then -credits else 0, if moved then credits else 0);
  }

  // ---- the ledger as the code keeps it ---------------------------------------

  class Database {
    var accounts: set<int>
    var balances: map<int, int>
    var log: seq<Row>
    var trust: seq<Trust>

    function View(): Tables
      reads this
    {
      Tables(accounts, balances, log, trust)
    }

    /** `hasCreditsRecord` */
    method HasCreditsRecord(account: int, run: DepositRun) returns (has: bool)
      ensures has == HasRecord(balances, account, run)
    {
      has := run.record && account in balances;
    }

    /** `depositCredits` */
    method DepositCredits(account: int, credits: int, run: DepositRun) returns (ok: bool)
      modifies this`balances
      ensures ok == old(Deposits(View(), account, run))
      ensures ok <==> run.account && account in accounts && run.write && (account in old(balances) ==> run.record)
      ensures forall a :: Balance(balances, a) == Balance(old(balances), a) + if ok && a == account then credits else 0
      ensures balances == if ok then Credit(old(balances), account, credits) else old(balances)
    {
      if !run.account || account !in accounts {
        return false;
      }
      var has := HasCreditsRecord(account, run);
      if !has {
        if !run.write || account in balances {
          return false;
        }
        balances := balances[account := credits];
      } else {
        if !run.write {
          return false;
        }
        balances := balances[account := balances[account] + credits];
      }
      return true;
    }

    /** `transferCredits`, once the target character has been looked up */
    method TransferCredits(from: int, target: Option<int>, credits: int, run: TransferRun)
        returns (result: TransferResult)
      modifies this`balances
      ensures (balances, result) == Transfer(old(View()), from, target, credits, run)
    {
      if target.None? {
        return NoCharacter;
      }
      var found := (if from in accounts then 1 else 0) +
        (if target.value in accounts && target.value != from then 1 else 0);
      if !run.accounts || found != 2 {
        return NoAccount;
      }
      var has := HasCreditsRecord(from, DepositRun(true, run.record, true));
      if !has {
        return NoBalance;
      }
      if !run.balance {
        return Failed;
      }
      if balances[from] < credits {
        return NoBalance;
      }
      var debited := DepositCredits(from, -credits, run.debit);
      if debited {
        var credited := DepositCredits(target.value, credits, run.credit);
        if !credited {
          var _ := DepositCredits(from, credits, run.restore);
          return Failed;
        }
        return Transferred;
      }
      return Failed;
    }

    /** `process`, from the point where the receiver and the game server are
        known, with `logToPayPalTable`. */
    method Process(n: Notice, c: Settings)
      requires c.rate > 0.0
      modifies this
      ensures View() == AfterNotice(old(View()), n, c)
    {
      var trusted := true;
      var credits := 0;
      if n.status.Completed? {
        if n.exchangeable {
          if n.amount >= c.minimum {
            if c.holdHours > 0 {
              trusted := IsTrusted(trust, n.account, n.email);
            }
            credits := (n.amount / c.rate).Floor;
            if trusted {
              var _ := DepositCredits(n.account, credits, n.deposit);
            }
          }
        }
      }
      if n.verified {
        var holdUntil: Option<int> := None;
        if !trusted {
          var running := RunningHold(log, n.account, n.email, n.now);
          if running.Some? {
            holdUntil := running;
          } else {
            holdUntil := Some(n.now + c.holdHours * 60 * 60);
          }
        }
        if n.insert {
          log := log + [Row(n.account, n.email, credits, n.amount, n.txn, n.parent, n.status, holdUntil)];
        }
      }
    }

    /** `processHeldCredits` */
    method ProcessHeldCredits(now: int, run: HeldRun)
      modifies this
      ensures View() == AfterHeld(old(View()), now, run)
    {
      var cancel, accept := SortHeld(log, now, run);
      if cancel != [] && run.cancel {
        log := Cancel(log, cancel);
      } else {
        CancelNothing(log);
      }
      DepositsIgnoreLog(View(), old(View()), accept, run);
      var idvals := DepositAccepted(accept, run);
      if idvals != [] && run.release {
        log := Release(log, idvals);
      } else {
        ReleaseNothing(log);
      }
    }

    /** The loop over the accepted rows: deposit, and trust the donor. */
    method DepositAccepted(accept: seq<Row>, run: HeldRun) returns (idvals: seq<string>)
      modifies this`balances, this`trust
      ensures balances == DepositAll(old(View()), accept, run)
      ensures trust == TrustAll(old(trust), accept, run) && idvals == Ids(accept)
    {
      ghost var t0 := View();
      idvals := [];
      for i := 0 to |accept|
        invariant accounts == t0.accounts && balances == DepositAll(t0, accept[..i], run)
        invariant trust == TrustAll(t0.trust, accept[..i], run)
        invariant idvals == Ids(accept[..i])
      {
        var t := accept[i];
        assert accept[..i + 1][..i] == accept[..i];
        var _ := DepositCredits(t.account, t.credits, run.deposit(i));
        var row := run.trusted(i) && IsTrustedNow(trust, t.account, t.email);
        if !row && run.trust(i) {
          trust := trust + [Trust(t.account, t.email, false)];
        }
        idvals := idvals + [t.txn];
      }
      assert accept[..|accept|] == accept;
    }

    /** The loop over the waiting rows: reversed ones are cancelled, expired ones
        accepted. */
    method SortHeld(rows: seq<Row>, now: int, run: HeldRun) returns (cancel: seq<string>, accept: seq<Row>)
      ensures cancel == CancelIds(rows, run, |rows|) && accept == Accepted(rows, run, now)
    {
      cancel, accept := [], [];
      for i := 0 to |rows|
        invariant cancel == CancelIds(rows, run, i) && accept == AcceptedRows(rows, run, now, i)
      {
        var t := rows[i];
        if run.read && t.account > 0 && t.hold.Some? && t.status.Completed? {
          if IsReversed(rows, t.txn) && run.reversal(i) {
            cancel := cancel + [t.txn];
          } else if t.hold.value <= now {
            accept := accept + [t];
          }
        }
      }
    }
  }

  lemma {:induction false} DepositsIgnoreLog(t: Tables, u: Tables, rows: seq<Row>, run: HeldRun)
    requires t.accounts == u.accounts && t.balances == u.balances
    ensures DepositAll(t, rows, run) == DepositAll(u, rows, run)
  {
    if rows != [] { DepositsIgnoreLog(t, u, rows[..|rows| - 1], run); }
  }

  lemma CancelNothing(log: seq<Row>)
    ensures Cancel(log, []) == log
  {
  }

  lemma ReleaseNothing(log: seq<Row>)
    ensures Release(log, []) == log
  {
  }

  // ---- processing holds and the agreement ----------------------------------------

  lemma {:induction false} CancelIdsAre(log: seq<Row>, run: HeldRun, n: nat)
    requires n <= |log|
    ensures forall x :: x in CancelIds(log, run, n) <==>
      exists i :: 0 <= i < n && IsCancelled(log, run, i) && log[i].txn == x
  {
    if n > 0 {
      CancelIdsAre(log, run, n - 1);
      assert IsCancelled(log, run, n - 1) ==> log[n - 1].txn in CancelIds(log, run, n);
    }
  }

  lemma IdsSnoc(rows: seq<Row>, row: Row)
    ensures Ids(rows + [row]) == Ids(rows) + [row.txn]
  {
    assert (rows + [row])[..|rows|] == rows;
  }

  lemma {:induction false} AcceptedIdsAre(log: seq<Row>, run: HeldRun, now: int, n: nat)
    requires n <= |log|
    ensures forall x :: x in Ids(AcceptedRows(log, run, now, n)) <==>
      exists i :: 0 <= i < n && IsAccepted(log, run, now, i) && log[i].txn == x
  {
    if n > 0 {
      AcceptedIdsAre(log, run, now, n - 1);
      IdsSnoc(AcceptedRows(log, run, now, n - 1), log[n - 1]);
    }
  }

  /** A completed row is changed by its own cancellation or acceptance only;
      other rows stay as they are. */
  lemma ProcessedRow(log: seq<Row>, now: int, run: HeldRun, i: nat)
    requires LogOk(log) && i < |log|
    ensures Processed(log, now, run)[i] ==
      if run.cancel && IsCancelled(log, run, i) then log[i].(credits := 0, hold := None)
      else if run.release && IsAccepted(log, run, now, i) then log[i].(hold := None)
      else log[i]
  {
    CancelIdsAre(log, run, |log|);
    AcceptedIdsAre(log, run, now, |log|);
    if log[i].status.Completed? {
      assert log[i].txn in CancelIds(log, run, |log|) <==> IsCancelled(log, run, i);
      assert log[i].txn in Ids(Accepted(log, run, now)) <==> IsAccepted(log, run, now, i);
    }
  }

  function SumFor(rows: seq<Row>, account: int): int {
    if rows == [] then 0
    else
      var last := rows[|rows| - 1];
      SumFor(rows[..|rows| - 1], account) + (if last.account == account then last.credits else 0)
  }

  lemma SumSnoc(rows: seq<Row>, row: Row, account: int)
    ensures SumFor(rows + [row], account) == SumFor(rows, account) + (if row.account == account then row.credits else 0)
  {
    assert (rows + [row])[..|rows|] == rows;
  }

  /** Releasing settles the accepted rows. */
  lemma {:induction false} SettledAfter(log: seq<Row>, now: int, run: HeldRun, k: nat, account: int)
    requires LogOk(log) && k <= |log|
    ensures SettledFor(Processed(log, now, run)[..k], account) ==
      SettledFor(log[..k], account) + (if run.release then SumFor(AcceptedRows(log, run, now, k), account) else 0)
  {
    if k > 0 {
      SettledAfter(log, now, run, k - 1, account);
      ProcessedRow(log, now, run, k - 1);
      var after := Processed(log, now, run);
      assert after[..k][..k - 1] == after[..k - 1] && log[..k][..k - 1] == log[..k - 1];
      SumSnoc(AcceptedRows(log, run, now, k - 1), log[k - 1], account);
    }
  }

  /** The credits of the rows whose deposits succeed. */
  function Deposited(t: Tables, rows: seq<Row>, run: HeldRun, account: int): int {
    if rows == [] then 0
    else
      var k := |rows| - 1;
      Deposited(t, rows[..k], run, account) +
        (if DepositsRow(t, rows, run, k) && rows[k].account == account then rows[k].credits else 0)
  }

  lemma {:induction false} DepositsAdd(t: Tables, rows: seq<Row>, run: HeldRun, account: int)
    ensures Balance(DepositAll(t, rows, run), account) ==
      Balance(t.balances, account) + Deposited(t, rows, run, account)
  {
    if rows != [] { DepositsAdd(t, rows[..|rows| - 1], run, account); }
  }

  /** Every row worth credits is deposited and released, or none is. */
  predicate AllOrNone(t: Tables, rows: seq<Row>, run: HeldRun) {
    forall k :: 0 <= k < |rows| && rows[k].credits != 0 ==> (DepositsRow(t, rows, run, k) <==> run.release)
  }

  lemma AllOrNoneSnoc(t: Tables, rows: seq<Row>, run: HeldRun)
    requires rows != []
    ensures var k := |rows| - 1;
      AllOrNone(t, rows, run) <==>
        AllOrNone(t, rows[..k], run) && (rows[k].credits != 0 ==> (DepositsRow(t, rows, run, k) <==> run.release))
  {
    var front := rows[..|rows| - 1];
    forall k | 0 <= k < |front| ensures front[k] == rows[k] &&
      (DepositsRow(t, front, run, k) <==> DepositsRow(t, rows, run, k)) {
      assert front[..k] == rows[..k];
    }
  }

  lemma {:induction false} AllOrNoneAdds(t: Tables, rows: seq<Row>, run: HeldRun, account: int)
    requires AllOrNone(t, rows, run)
    ensures Deposited(t, rows, run, account) == if run.release then SumFor(rows, account) else 0
  {
    if rows != [] {
      AllOrNoneSnoc(t, rows, run);
      AllOrNoneAdds(t, rows[..|rows| - 1], run, account);
    }
  }

  /** What is deposited is never more than the rows are worth. */
  lemma {:induction false} DepositedBounds(t: Tables, rows: seq<Row>, run: HeldRun, account: int)
    requires forall k :: 0 <= k < |rows| ==> rows[k].credits >= 0
    ensures 0 <= Deposited(t, rows, run, account) <= SumFor(rows, account)
  {
    if rows != [] { DepositedBounds(t, rows[..|rows| - 1], run, account); }
  }

  lemma {:induction false} SumsAgree(t: Tables, rows: seq<Row>, run: HeldRun)
    requires forall k :: 0 <= k < |rows| ==> rows[k].credits >= 0
    requires forall a :: Deposited(t, rows, run, a) == if run.release then SumFor(rows, a) else 0
    ensures AllOrNone(t, rows, run)
  {
    if rows != [] {
      var front, last := rows[..|rows| - 1], rows[|rows| - 1];
      forall a ensures Deposited(t, front, run, a) == if run.release then SumFor(front, a) else 0 {
        DepositedBounds(t, front, run, a);
        assert Deposited(t, rows, run, a) == if run.release then SumFor(rows, a) else 0;
      }
      SumsAgree(t, front, run);
      assert Deposited(t, rows, run, last.account) == if run.release then SumFor(rows, last.account) else 0;
      AllOrNoneSnoc(t, rows, run);
    }
  }

  /** Both balances and log move by what is deposited and what is released. */
  lemma HeldMoves(start: map<int, int>, t: Tables, now: int, run: HeldRun, a: int)
    requires LogOk(t.log) && Agrees(start, t)
    ensures var t1, accepted := AfterHeld(t, now, run), Accepted(t.log, run, now);
      Balance(t1.balances, a) == Balance(start, a) + SettledFor(t1.log, a) <==>
        Deposited(t, accepted, run, a) == if run.release then SumFor(accepted, a) else 0
  {
    var t1 := AfterHeld(t, now, run);
    DepositsAdd(t, Accepted(t.log, run, now), run, a);
    SettledAfter(t.log, now, run, |t.log|, a);
    assert t1.log[..|t.log|] == t1.log && t.log[..|t.log|] == t.log;
  }

  /** Processing held payments keeps balances and log in agreement exactly when
      the payments worth credits are all deposited and released, or none is
      either: a failing deposit before a release loses credits, and a failing
      release after a deposit leaves the payment to be deposited again. */
  lemma HeldAgreement(start: map<int, int>, t: Tables, now: int, run: HeldRun)
    requires LogOk(t.log) && Agrees(start, t)
    requires forall k :: 0 <= k < |Accepted(t.log, run, now)| ==> Accepted(t.log, run, now)[k].credits >= 0
    ensures Agrees(start, AfterHeld(t, now, run)) <==> AllOrNone(t, Accepted(t.log, run, now), run)
  {
    var accepted := Accepted(t.log, run, now);
    if Agrees(start, AfterHeld(t, now, run)) {
      forall a ensures Deposited(t, accepted, run, a) == if run.release then SumFor(accepted, a) else 0 {
        HeldMoves(start, t, now, run, a);
        assert Balance(AfterHeld(t, now, run).balances, a) ==
          Balance(start, a) + SettledFor(AfterHeld(t, now, run).log, a);
      }
      SumsAgree(t, accepted, run);
    }
    if AllOrNone(t, accepted, run) { HeldKeepsAgreement(start, t, now, run); }
  }

  lemma HeldKeepsAgreement(start: map<int, int>, t: Tables, now: int, run: HeldRun)
    requires LogOk(t.log) && Agrees(start, t) && AllOrNone(t, Accepted(t.log, run, now), run)
    ensures Agrees(start, AfterHeld(t, now, run)) && LogOk(AfterHeld(t, now, run).log)
  {
    forall a ensures Balance(AfterHeld(t, now, run).balances, a) ==
      Balance(start, a) + SettledFor(AfterHeld(t, now, run).log, a) {
      AllOrNoneAdds(t, Accepted(t.log, run, now), run, a);
      HeldMoves(start, t, now, run, a);
    }
    ProcessedKeepsLogOk(t.log, now, run);
  }

  lemma ProcessedKeepsLogOk(log: seq<Row>, now: int, run: HeldRun)
    requires LogOk(log)
    ensures LogOk(Processed(log, now, run))
    ensures forall i :: 0 <= i < |log| ==>
      Processed(log, now, run)[i].(credits := log[i].credits, hold := log[i].hold) == log[i]
  {
    forall i | 0 <= i < |log|
      ensures Processed(log, now, run)[i].(credits := log[i].credits, hold := log[i].hold) == log[i]
      ensures !log[i].status.Completed? ==> Processed(log, now, run)[i] == log[i]
    {
      ProcessedRow(log, now, run, i);
    }
  }

  // ---- what becomes of each held payment -------------------------------------------

  lemma {:induction false} IdsOf(rows: seq<Row>, txn: string)
    ensures txn in Ids(rows) <==> exists k :: 0 <= k < |rows| && rows[k].txn == txn
  {
    if rows != [] {
      var n := |rows| - 1;
      IdsOf(rows[..n], txn);
      assert forall k :: 0 <= k < n ==> rows[..n][k] == rows[k];
    }
  }

  predicate IsPaidAmong(t: Tables, rows: seq<Row>, run: HeldRun, txn: string, n: nat)
    requires n <= |rows|
  {
    exists k :: 0 <= k < n && rows[k].txn == txn && DepositsRow(t, rows, run, k)
  }

  lemma PaidNext(t: Tables, rows: seq<Row>, run: HeldRun, n: nat)
    requires n < |rows|
    ensures PaidIds(t, rows[..n + 1], run) ==
      PaidIds(t, rows[..n], run) + if DepositsRow(t, rows, run, n) then [rows[n].txn] else []
  {
    assert rows[..n + 1][..n] == rows[..n];
  }

  lemma PaidIdsAre(t: Tables, rows: seq<Row>, run: HeldRun, txn: string)
    ensures txn in PaidIds(t, rows, run) <==> IsPaidAmong(t, rows, run, txn, |rows|)
  {
    for n := 0 to |rows|
      invariant txn in PaidIds(t, rows[..n], run) <==> IsPaidAmong(t, rows, run, txn, n)
    {
      PaidNext(t, rows, run, n);
    }
    assert rows[..|rows|] == rows;
  }

  /** Nothing happens to a payment before its hold ends, unless it is reversed. */
  lemma HoldIsKept(t: Tables, now: int, run: HeldRun, c: Settings, i: nat)
    requires LogOk(t.log) && i < |t.log| && t.log[i].status.Completed?
    requires t.log[i].hold.Some? && t.log[i].hold.value > now
    requires forall j :: 0 <= j < |t.log| && t.log[j].status.Reversal? ==> t.log[j].parent != t.log[i].txn
    ensures AfterHeld(t, now, run).log[i] == t.log[i]
    ensures t.log[i].txn !in Paid(t, HeldProcessed(now, run), c)
  {
    ProcessedRow(t.log, now, run, i);
    var rows, txn := Accepted(t.log, run, now), t.log[i].txn;
    PaidIdsAre(t, rows, run, txn);
    IdsOf(rows, txn);
    AcceptedIdsAre(t.log, run, now, |t.log|);
  }

  /** All statements succeed. */
  predicate AllSucceed(run: HeldRun, n: nat) {
    && run.read && run.cancel && run.release && (forall i: nat :: i < n ==> run.reversal(i))
    && forall k: nat :: k < n ==> run.deposit(k) == ALL_WELL && run.trusted(k) && run.trust(k)
  }

  lemma {:induction false} AcceptedCount(log: seq<Row>, run: HeldRun, now: int, n: nat)
    requires n <= |log|
    ensures |AcceptedRows(log, run, now, n)| <= n
  {
    if n > 0 { AcceptedCount(log, run, now, n - 1); }
  }

  /** When all statements succeed: a reversed payment loses its credits, an expired
      one is released, and all other rows stay as they are. */
  lemma WhatBecomesOfRow(t: Tables, now: int, run: HeldRun, i: nat)
    requires LogOk(t.log) && i < |t.log| && AllSucceed(run, |t.log|)
    ensures var row := t.log[i];
      var reversed := exists j :: 0 <= j < |t.log| && t.log[j].status.Reversal? && t.log[j].parent == row.txn;
      AfterHeld(t, now, run).log[i] ==
        if !(row.account > 0 && row.status.Completed? && row.hold.Some?) then row
        else if reversed then row.(credits := 0, hold := None)
        else if row.hold.value <= now then row.(hold := None)
        else row
  {
    ProcessedRow(t.log, now, run, i);
  }

  /** When all statements succeed, exactly the expired payments of known accounts
      that are not reversed are credited. */
  lemma WhoIsPaid(t: Tables, now: int, run: HeldRun, c: Settings, txn: string)
    requires LogOk(t.log) && AllSucceed(run, |t.log|)
    ensures txn in Paid(t, HeldProcessed(now, run), c) <==>
      exists i :: 0 <= i < |t.log| && t.log[i].txn == txn && t.log[i].account > 0 && t.log[i].status.Completed? &&
        t.log[i].hold.Some? && t.log[i].hold.value <= now && t.log[i].account in t.accounts &&
        forall j :: 0 <= j < |t.log| && t.log[j].status.Reversal? ==> t.log[j].parent != txn
  {
    WhoIsDue(t, now, run, txn);
    assert (exists i :: IsDue(t, now, i) && t.log[i].txn == txn) <==>
      exists i :: 0 <= i < |t.log| && t.log[i].txn == txn && t.log[i].account > 0 && t.log[i].status.Completed? &&
        t.log[i].hold.Some? && t.log[i].hold.value <= now && t.log[i].account in t.accounts &&
        forall j :: 0 <= j < |t.log| && t.log[j].status.Reversal? ==> t.log[j].parent != txn;
  }

  lemma WhoIsDue(t: Tables, now: int, run: HeldRun, txn: string)
    requires AllSucceed(run, |t.log|)
    ensures txn in PaidIds(t, Accepted(t.log, run, now), run) <==> exists i :: IsDue(t, now, i) && t.log[i].txn == txn
  {
    var rows := Accepted(t.log, run, now);
    PaidIdsAre(t, rows, run, txn);
    AcceptedCount(t.log, run, now, |t.log|);
    RowsTaken(t.log, run, now, |t.log|);
    if exists i :: IsDue(t, now, i) && t.log[i].txn == txn {
      var i :| IsDue(t, now, i) && t.log[i].txn == txn;
      assert IsAccepted(t.log, run, now, i);
      assert t.log[i] in rows;
      var k :| 0 <= k < |rows| && rows[k] == t.log[i];
      assert DepositsRow(t, rows, run, k);
    }
    if IsPaidAmong(t, rows, run, txn, |rows|) {
      var k :| 0 <= k < |rows| && rows[k].txn == txn && DepositsRow(t, rows, run, k);
      assert rows[k] in rows;
      var i :| 0 <= i < |t.log| && t.log[i] == rows[k] && IsAccepted(t.log, run, now, i);
      assert IsDue(t, now, i);
    }
  }

  /** An expired payment of a known account that is not reversed. */
  predicate IsDue(t: Tables, now: int, i: int) {
    && 0 <= i < |t.log| && t.log[i].account > 0 && t.log[i].status.Completed?
    && t.log[i].hold.Some? && t.log[i].hold.value <= now && t.log[i].account in t.accounts
    && forall j :: 0 <= j < |t.log| && t.log[j].status.Reversal? ==> t.log[j].parent != t.log[i].txn
  }

  /** The credits due to an account from the first `n` rows. */
  function DueCredits(t: Tables, now: int, account: int, n: nat): int
    requires n <= |t.log|
  {
    if n == 0 then 0
    else
      DueCredits(t, now, account, n - 1) +
      (if IsDue(t, now, n - 1) && t.log[n - 1].account == account then t.log[n - 1].credits else 0)
  }

  lemma {:induction false} SumIsDue(t: Tables, run: HeldRun, now: int, account: int, n: nat)
    requires n <= |t.log| && AllSucceed(run, |t.log|) && account in t.accounts
    ensures SumFor(AcceptedRows(t.log, run, now, n), account) == DueCredits(t, now, account, n)
  {
    if n > 0 {
      SumIsDue(t, run, now, account, n - 1);
      SumSnoc(AcceptedRows(t.log, run, now, n - 1), t.log[n - 1], account);
    }
  }

  lemma {:induction false} DepositedInFull(t: Tables, rows: seq<Row>, run: HeldRun, account: int)
    requires forall k: nat :: k < |rows| ==> run.deposit(k) == ALL_WELL
    ensures Deposited(t, rows, run, account) == if account in t.accounts then SumFor(rows, account) else 0
  {
    if rows != [] { DepositedInFull(t, rows[..|rows| - 1], run, account); }
  }

  /** When all statements succeed each account gets the credits that are due. */
  lemma WhoGetsWhat(t: Tables, now: int, run: HeldRun, account: int)
    requires AllSucceed(run, |t.log|)
    ensures Balance(AfterHeld(t, now, run).balances, account) ==
      Balance(t.balances, account) + if account in t.accounts then DueCredits(t, now, account, |t.log|) else 0
  {
    var rows := Accepted(t.log, run, now);
    AcceptedCount(t.log, run, now, |t.log|);
    DepositsAdd(t, rows, run, account);
    DepositedInFull(t, rows, run, account);
    if account in t.accounts { SumIsDue(t, run, now, account, |t.log|); }
  }

  /** The donors of some rows come to be trusted, and nobody else. */
  lemma {:induction false} TrustedBy(trust: seq<Trust>, rows: seq<Row>, run: HeldRun, account: int, email: string)
    requires forall k: nat :: k < |rows| ==> run.trusted(k) && run.trust(k)
    ensures IsTrustedNow(TrustAll(trust, rows, run), account, email) <==>
      IsTrustedNow(trust, account, email) || exists r :: r in rows && r.account == account && r.email == email
    ensures trust <= TrustAll(trust, rows, run)
  {
    if rows != [] {
      var k := |rows| - 1;
      var before, after := TrustAll(trust, rows[..k], run), TrustAll(trust, rows, run);
      TrustedBy(trust, rows[..k], run, account, email);
      assert forall r :: r in rows <==> r in rows[..k] || r == rows[k];
      if after != before { TrustSnoc(before, Trust(rows[k].account, rows[k].email, false), account, email); }
    }
  }

  /** No donor gets a second row in the trust table when the look-ups succeed. */
  lemma {:induction false} TrustedOnce(trust: seq<Trust>, rows: seq<Row>, run: HeldRun)
    requires forall k: nat :: k < |rows| ==> run.trusted(k)
    ensures var after := TrustAll(trust, rows, run);
      && trust <= after
      && forall i, j :: 0 <= i < j < |after| && |trust| <= j && !after[i].deleted ==>
           after[i].account != after[j].account || after[i].email != after[j].email
  {
    if rows != [] {
      var k := |rows| - 1;
      TrustedOnce(trust, rows[..k], run);
    }
  }

  lemma TrustSnoc(trust: seq<Trust>, x: Trust, account: int, email: string)
    requires !x.deleted
    ensures IsTrustedNow(trust + [x], account, email) <==>
      IsTrustedNow(trust, account, email) || (x.account == account && x.email == email)
  {
    var all := trust + [x];
    if IsTrustedNow(trust, account, email) {
      var i :| 0 <= i < |trust| && !trust[i].deleted && trust[i].account == account && trust[i].email == email;
      assert all[i] == trust[i];
    }
    assert all[|trust|] == x;
  }

  /** When all statements succeed the donors of expired payments are trusted from
      then on, and no other. */
  lemma WhoIsTrusted(t: Tables, now: int, run: HeldRun, account: int, email: string)
    requires AllSucceed(run, |t.log|)
    ensures var trust := AfterHeld(t, now, run).trust;
      && t.trust <= trust
      && (forall i, j :: 0 <= i < j < |trust| && |t.trust| <= j && !trust[i].deleted ==>
            trust[i].account != trust[j].account || trust[i].email != trust[j].email)
      && ((exists k ::
             && 0 <= k < |trust| && !trust[k].deleted && trust[k].account == account && trust[k].email == email) <==>
           (exists k ::
             && 0 <= k < |t.trust| && !t.trust[k].deleted && t.trust[k].account == account
             && t.trust[k].email == email)
           || (exists i ::
                && 0 <= i < |t.log| && t.log[i].account == account > 0 && t.log[i].email == email
                && t.log[i].status.Completed? && t.log[i].hold.Some? && t.log[i].hold.value <= now
                && forall j :: 0 <= j < |t.log| && t.log[j].status.Reversal? ==> t.log[j].parent != t.log[i].txn))
  {
    var rows := Accepted(t.log, run, now);
    AcceptedCount(t.log, run, now, |t.log|);
    TrustedBy(t.trust, rows, run, account, email);
    TrustedOnce(t.trust, rows, run);
    DonorsTaken(t.log, run, now, account, email);
    assert (exists i :: IsExpired(t.log, now, i) && t.log[i].account == account && t.log[i].email == email) <==>
      exists i :: 0 <= i < |t.log| && t.log[i].account == account > 0 && t.log[i].email == email &&
        t.log[i].status.Completed? && t.log[i].hold.Some? && t.log[i].hold.value <= now &&
        forall j :: 0 <= j < |t.log| && t.log[j].status.Reversal? ==> t.log[j].parent != t.log[i].txn;
  }

  lemma DonorsTaken(log: seq<Row>, run: HeldRun, now: int, account: int, email: string)
    requires AllSucceed(run, |log|)
    ensures (exists r :: r in Accepted(log, run, now) && r.account == account && r.email == email) <==>
      exists i :: IsExpired(log, now, i) && log[i].account == account && log[i].email == email
  {
    var rows := Accepted(log, run, now);
    RowsTaken(log, run, now, |log|);
    if exists i :: IsExpired(log, now, i) && log[i].account == account && log[i].email == email {
      var i :| IsExpired(log, now, i) && log[i].account == account && log[i].email == email;
      assert IsAccepted(log, run, now, i);
      assert log[i] in rows;
    }
    if exists r :: r in rows && r.account == account && r.email == email {
      var r :| r in rows && r.account == account && r.email == email;
      var i :| 0 <= i < |log| && log[i] == r && IsAccepted(log, run, now, i);
      assert IsExpired(log, now, i);
    }
  }

  predicate IsExpired(log: seq<Row>, now: int, i: int) {
    && 0 <= i < |log| && log[i].account > 0 && log[i].status.Completed? && log[i].hold.Some? && log[i].hold.value <= now
    && forall j :: 0 <= j < |log| && log[j].status.Reversal? ==> log[j].parent != log[i].txn
  }

  lemma {:induction false} RowsTaken(log: seq<Row>, run: HeldRun, now: int, n: nat)
    requires n <= |log|
    ensures forall r :: r in AcceptedRows(log, run, now, n) <==>
      exists i :: 0 <= i < n && log[i] == r && IsAccepted(log, run, now, i)
  {
    if n > 0 { RowsTaken(log, run, now, n - 1); }
  }

  // ---- what a failing statement does to held payments ------------------------------

  function HeldRow(txn: string): Row {
    Row(7, "donor", 10, 10.0, txn, "", Completed, Some(0))
  }

  /** One row, waiting and expired, that is taken for deposit. */
  lemma OneAccepted(row: Row, run: HeldRun, now: int)
    requires IsWaiting(row) && row.hold.value <= now && run.read
    ensures Accepted([row], run, now) == [row] && CancelIds([row], run, 1) == []
  {
    assert !IsReversed([row], row.txn);
    assert AcceptedRows([row], run, now, 0) == [] && CancelIds([row], run, 0) == [];
  }

  lemma OneDeposit(t: Tables, row: Row, run: HeldRun)
    ensures DepositAll(t, [row], run) ==
      if Deposits(t, row.account, run.deposit(0)) then Credit(t.balances, row.account, row.credits) else t.balances
  {
    assert [row][..0] == [] && t.(balances := t.balances) == t;
  }

  /** The releasing update fails: the same payment is deposited by every call. */
  lemma CreditedTwice() returns (t: Tables, run: HeldRun)
    ensures run == HELD_WELL.(release := false) && t.log == [HeldRow("T1")] && Balance(t.balances, 7) == 0
    ensures Balance(AfterHeld(t, 1, run).balances, 7) == 10 && AfterHeld(t, 1, run).log == t.log
    ensures Balance(AfterHeld(AfterHeld(t, 1, run), 2, run).balances, 7) == 20
  {
    t, run := Tables({7}, map[], [HeldRow("T1")], []), HELD_WELL.(release := false);
    OneAccepted(HeldRow("T1"), run, 1);
    OneDeposit(t, HeldRow("T1"), run);
    CancelNothing(t.log);
    var t1 := AfterHeld(t, 1, run);
    OneAccepted(HeldRow("T1"), run, 2);
    OneDeposit(t1, HeldRow("T1"), run);
  }

  /** The deposit fails and the release does not: the log says the credits were
      settled, and no balance has them. */
  lemma ReleasedUndeposited() returns (t: Tables, run: HeldRun)
    ensures run == HELD_WELL.(deposit := k => DepositRun(true, true, false)) && t.log == [HeldRow("T1")]
    ensures AfterHeld(t, 1, run).balances == t.balances && AfterHeld(t, 1, run).log == [HeldRow("T1").(hold := None)]
  {
    t, run := Tables({7}, map[], [HeldRow("T1")], []), HELD_WELL.(deposit := k => DepositRun(true, true, false));
    OneAccepted(HeldRow("T1"), run, 1);
    OneDeposit(t, HeldRow("T1"), run);
    CancelNothing(t.log);
    assert Ids([HeldRow("T1")]) == [] + ["T1"];
  }

  /** The look-up of the reversal fails: a reversed payment is taken for deposit. */
  lemma ReversedIsAccepted() returns (log: seq<Row>, run: HeldRun)
    ensures run == HELD_WELL.(reversal := i => false)
    ensures IsReversed(log, "T1") && "T1" in Ids(Accepted(log, run, 1)) && "T1" !in Ids(Accepted(log, HELD_WELL, 1))
  {
    run := HELD_WELL.(reversal := i => false);
    log := [HeldRow("T1"), Row(7, "donor", 0, -10.0, "T2", "T1", Reversal, None)];
    assert log[1].parent == "T1";
    AcceptedIdsAre(log, run, 1, 2);
    AcceptedIdsAre(log, HELD_WELL, 1, 2);
    assert IsAccepted(log, run, 1, 0) && log[0].txn == "T1";
  }

  // ---- runs ----------------------------------------------------------------------

  datatype Event = Notified(n: Notice) | HeldProcessed(now: int, run: HeldRun)

  /** The runs considered. A completed payment has not been logged before, and
      if it is exchanged and not held, it is deposited and logged, or neither.
      Processing held payments finds the reversals that are logged, and deposits
      and releases all accepted rows, or none. All other statements may fail. */
  predicate Enabled(t: Tables, e: Event, c: Settings) {
    match e
    case Notified(n) =>
      n.status.Completed? ==>
        && !IsLogged(t.log, n.txn)
        && (Exchanges(n, c) && !IsHeld(t, n, c) ==> Deposits(t, n.account, n.deposit) == NoticeLogs(n))
    case HeldProcessed(now, run) => FindsReversals(t.log, run) && SettlesAllOrNone(t, Accepted(t.log, run, now), run)
  }

  predicate FindsReversals(log: seq<Row>, run: HeldRun) {
    forall i :: 0 <= i < |log| ==> run.reversal(i)
  }

  predicate SettlesAllOrNone(t: Tables, rows: seq<Row>, run: HeldRun) {
    forall k :: 0 <= k < |rows| ==> (DepositsRow(t, rows, run, k) <==> run.release)
  }

  function Step(t: Tables, e: Event, c: Settings): Tables
    requires c.rate > 0.0
  {
    match e
    case Notified(n) => AfterNotice(t, n, c)
    case HeldProcessed(now, run) => AfterHeld(t, now, run)
  }

  function Run(t: Tables, events: seq<Event>, c: Settings): Tables
    requires c.rate > 0.0
  {
    if |events| == 0 then t else Step(Run(t, events[..|events| - 1], c), events[|events| - 1], c)
  }

  predicate AllEnabled(t: Tables, events: seq<Event>, c: Settings)
    requires c.rate > 0.0
  {
    forall k :: 0 <= k < |events| ==> Enabled(Run(t, events[..k], c), events[k], c)
  }

  ghost predicate Consistent(start: map<int, int>, t: Tables) {
    LogOk(t.log) && Agrees(start, t)
  }

  lemma StepKeepsConsistency(start: map<int, int>, t: Tables, e: Event, c: Settings)
    requires c.rate > 0.0 && Consistent(start, t) && Enabled(t, e, c)
    ensures Consistent(start, Step(t, e, c))
  {
    match e
    case Notified(n) =>
      NoticeAgreement(start, t, n, c);
      NoticeKeepsLogOk(t, n, c);
    case HeldProcessed(now, run) => HeldKeepsAgreement(start, t, now, run);
  }

  lemma NoticeKeepsLogOk(t: Tables, n: Notice, c: Settings)
    requires c.rate > 0.0 && LogOk(t.log) && Enabled(t, Notified(n), c)
    ensures LogOk(AfterNotice(t, n, c).log)
  {
  }

  lemma PrefixEnabled(t: Tables, events: seq<Event>, c: Settings)
    requires c.rate > 0.0 && |events| > 0 && AllEnabled(t, events, c)
    ensures var n := |events| - 1;
      AllEnabled(t, events[..n], c) && Enabled(Run(t, events[..n], c), events[n], c)
  {
    var n := |events| - 1;
    assert forall k :: 0 <= k < n ==> events[..n][..k] == events[..k] && events[..n][k] == events[k];
  }

  /** Over every run: each balance is its starting value plus the credits of the
      account's log rows that are not held. */
  lemma {:induction false} LedgerAgrees(start: map<int, int>, t: Tables, events: seq<Event>, c: Settings)
    requires c.rate > 0.0 && Consistent(start, t) && AllEnabled(t, events, c)
    ensures Consistent(start, Run(t, events, c))
  {
    if |events| > 0 {
      PrefixEnabled(t, events, c);
      var n := |events| - 1;
      LedgerAgrees(start, t, events[..n], c);
      StepKeepsConsistency(start, Run(t, events[..n], c), events[n], c);
    }
  }

  // ---- each payment is credited at most once ---------------------------------------

  /** The payments whose deposits succeed. */
  function PaidIds(t: Tables, rows: seq<Row>, run: HeldRun): seq<string> {
    if rows == [] then []
    else
      var k := |rows| - 1;
      PaidIds(t, rows[..k], run) + (if DepositsRow(t, rows, run, k) then [rows[k].txn] else [])
  }

  /** The payments a step credits. */
  function Paid(t: Tables, e: Event, c: Settings): seq<string> {
    match e
    case Notified(n) => if NoticeDeposits(t, n, c) then [n.txn] else []
    case HeldProcessed(now, run) => PaidIds(t, Accepted(t.log, run, now), run)
  }

  function PaidOver(t: Tables, events: seq<Event>, c: Settings): seq<string>
    requires c.rate > 0.0
  {
    if |events| == 0 then []
    else
      var n := |events| - 1;
      PaidOver(t, events[..n], c) + Paid(Run(t, events[..n], c), events[n], c)
  }

  predicate IsWaitingFor(log: seq<Row>, txn: string) {
    exists i :: 0 <= i < |log| && log[i].status.Completed? && log[i].txn == txn && log[i].hold.Some?
  }

  /** A payment that may still be credited: not logged yet, or held and not
      reversed. */
  predicate IsOpen(log: seq<Row>, txn: string) {
    !IsLogged(log, txn) || (IsWaitingFor(log, txn) && !IsReversed(log, txn))
  }

  function Chances(log: seq<Row>, txn: string): nat {
    if IsOpen(log, txn) then 1 else 0
  }

  lemma {:induction false} AcceptedOnce(log: seq<Row>, run: HeldRun, now: int, n: nat, txn: string)
    requires LogOk(log) && n <= |log|
    ensures multiset(Ids(AcceptedRows(log, run, now, n)))[txn] <= 1
  {
    if n > 0 {
      AcceptedOnce(log, run, now, n - 1, txn);
      if IsAccepted(log, run, now, n - 1) {
        IdsSnoc(AcceptedRows(log, run, now, n - 1), log[n - 1]);
        NotAcceptedBefore(log, run, now, n - 1);
      }
    }
  }

  lemma NotAcceptedBefore(log: seq<Row>, run: HeldRun, now: int, n: nat)
    requires LogOk(log) && n < |log| && log[n].status.Completed?
    ensures log[n].txn !in Ids(AcceptedRows(log, run, now, n))
  {
    AcceptedIdsAre(log, run, now, n);
  }

  lemma {:induction false} PaidAreAccepted(t: Tables, rows: seq<Row>, run: HeldRun, txn: string)
    ensures multiset(PaidIds(t, rows, run))[txn] <= multiset(Ids(rows))[txn]
  {
    if rows != [] { PaidAreAccepted(t, rows[..|rows| - 1], run, txn); }
  }

  lemma {:induction false} PaidNone(t: Tables, rows: seq<Row>, run: HeldRun)
    requires !run.release && SettlesAllOrNone(t, rows, run)
    ensures PaidIds(t, rows, run) == []
  {
    if rows != [] {
      var front := rows[..|rows| - 1];
      forall k | 0 <= k < |front| ensures !DepositsRow(t, front, run, k) {
        assert front[..k] == rows[..k] && !DepositsRow(t, rows, run, k);
      }
      PaidNone(t, front, run);
      assert !DepositsRow(t, rows, run, |front|);
    }
  }

  lemma NoticeUsesChance(t: Tables, n: Notice, c: Settings, txn: string)
    requires c.rate > 0.0 && LogOk(t.log) && Enabled(t, Notified(n), c)
    ensures multiset(Paid(t, Notified(n), c))[txn] + Chances(AfterNotice(t, n, c).log, txn) <= Chances(t.log, txn)
  {
    var log1 := AfterNotice(t, n, c).log;
    assert forall i :: 0 <= i < |t.log| ==> log1[i] == t.log[i];
    assert NoticeLogs(n) ==> log1[|t.log|] == NewRow(t, n, c);
    if IsLogged(t.log, txn) {
      var i :| 0 <= i < |t.log| && t.log[i].status.Completed? && t.log[i].txn == txn;
      assert log1[i].txn == txn;
    }
  }

  /** Processing opens no payment. */
  lemma ProcessedOpensNone(log: seq<Row>, now: int, run: HeldRun, txn: string)
    requires LogOk(log)
    ensures Chances(Processed(log, now, run), txn) <= Chances(log, txn)
  {
    var log1 := Processed(log, now, run);
    ProcessedKeepsLogOk(log, now, run);
    if IsLogged(log, txn) {
      var i :| 0 <= i < |log| && log[i].status.Completed? && log[i].txn == txn;
      assert log1[i].txn == txn;
    }
    if IsReversed(log, txn) {
      var i :| 0 <= i < |log| && log[i].status.Reversal? && log[i].parent == txn;
      assert log1[i].parent == txn;
    }
    if IsWaitingFor(log1, txn) {
      var i :| 0 <= i < |log1| && log1[i].status.Completed? && log1[i].txn == txn && log1[i].hold.Some?;
      ProcessedRow(log, now, run, i);
      assert log[i].hold.Some?;
    }
  }

  /** A released payment was open, and is closed. */
  lemma ReleaseCloses(log: seq<Row>, now: int, run: HeldRun, txn: string)
    requires LogOk(log) && FindsReversals(log, run) && run.release && txn in Ids(Accepted(log, run, now))
    ensures Chances(log, txn) == 1 && Chances(Processed(log, now, run), txn) == 0
  {
    var log1 := Processed(log, now, run);
    AcceptedIdsAre(log, run, now, |log|);
    ProcessedKeepsLogOk(log, now, run);
    var i :| 0 <= i < |log| && IsAccepted(log, run, now, i) && log[i].txn == txn;
    assert !IsReversed(log, txn) && log[i].hold.Some?;
    ProcessedRow(log, now, run, i);
    assert log1[i].status.Completed? && log1[i].txn == txn && log1[i].hold.None?;
    forall j | 0 <= j < |log1| && log1[j].status.Completed? && log1[j].txn == txn ensures j == i {}
  }

  lemma HeldUsesChance(t: Tables, now: int, run: HeldRun, txn: string)
    requires LogOk(t.log) && FindsReversals(t.log, run) && SettlesAllOrNone(t, Accepted(t.log, run, now), run)
    ensures multiset(PaidIds(t, Accepted(t.log, run, now), run))[txn] +
      Chances(Processed(t.log, now, run), txn) <= Chances(t.log, txn)
  {
    var rows := Accepted(t.log, run, now);
    ProcessedOpensNone(t.log, now, run, txn);
    if !run.release {
      PaidNone(t, rows, run);
    } else {
      AcceptedOnce(t.log, run, now, |t.log|, txn);
      PaidAreAccepted(t, rows, run, txn);
      if txn in Ids(rows) { ReleaseCloses(t.log, now, run, txn); }
    }
  }

  /** Over every run a payment is credited at most once, and never once it is
      closed: settled already, or reversed while held. */
  lemma {:induction false} CreditedAtMostOnce(start: map<int, int>, t: Tables, events: seq<Event>, c: Settings,
      txn: string)
    requires c.rate > 0.0 && Consistent(start, t) && AllEnabled(t, events, c)
    ensures multiset(PaidOver(t, events, c))[txn] + Chances(Run(t, events, c).log, txn) <= Chances(t.log, txn)
  {
    if |events| > 0 {
      PrefixEnabled(t, events, c);
      var n := |events| - 1;
      CreditedAtMostOnce(start, t, events[..n], c, txn);
      LedgerAgrees(start, t, events[..n], c);
      var s := Run(t, events[..n], c);
      match events[n]
      case Notified(m) => NoticeUsesChance(s, m, c, txn);
      case HeldProcessed(now, run) => HeldUsesChance(s, now, run, txn);
    }
  }

  /** A payment whose reversal is logged while it is held is never credited. */
  lemma CancelledIsNeverCredited(start: map<int, int>, t: Tables, events: seq<Event>, c: Settings, txn: string)
    requires c.rate > 0.0 && Consistent(start, t) && AllEnabled(t, events, c)
    requires IsWaitingFor(t.log, txn) && IsReversed(t.log, txn)
    ensures txn !in PaidOver(t, events, c)
  {
    CreditedAtMostOnce(start, t, events, c, txn);
    var i :| 0 <= i < |t.log| && t.log[i].status.Completed? && t.log[i].txn == txn && t.log[i].hold.Some?;
    assert IsLogged(t.log, txn);
  }
}
