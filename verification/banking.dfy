/** The Bank: the record tree, both credential tables, the ledger and the
    service queue, and the operations of the customer and employee menus.
    Every operation returns a new Bank or an error; an error carries no Bank,
    so a refused operation changes nothing. */
module Banking {
  import opened Outcome
  import opened KeyOrder
  import opened Account
  import opened RecordStore
  import opened Credentials
  import Tx = Transactions
  import opened ServiceQueue

  datatype Bank = Bank(
    accounts: Tree,
    customers: CredentialMap,
    employees: CredentialMap,
    ledger: Tx.Ledger,
    queue: Queue)

  predicate Valid(b: Bank)
  {
    IsBst(b.accounts) && Tx.InStep(b.ledger)
  }

  /** Every account in the tree can be logged into. */
  predicate Covered(b: Bank)
  {
    forall k | k in Keys(b.accounts) :: k in b.customers
  }

  /** No balance is negative: the policy every valid path keeps. */
  ghost predicate Solvent(b: Bank)
    requires IsBst(b.accounts)
  {
    forall k | k in Keys(b.accounts) :: Find(b.accounts, k).value.balance >= 0
  }

  predicate CustomerLogin(b: Bank, id: string, secret: string)
  {
    Verify(b.customers, id, secret)
  }

  predicate EmployeeLogin(b: Bank, id: string, secret: string)
  {
    Verify(b.employees, id, secret)
  }

  /** Find after an update, for every key at once. */
  lemma UpdateFindAll(t: Tree, r: Record)
    requires IsBst(t)
    ensures forall k :: Find(Update(t, r), k) == if k == r.number && k in Keys(t) then Some(r) else Find(t, k)
  {
    forall k ensures Find(Update(t, r), k) == if k == r.number && k in Keys(t) then Some(r) else Find(t, k) {
      UpdateThenFind(t, r, k);
    }
  }

  /** Find after an insertion, for every key at once. */
  lemma InsertFindAll(t: Tree, r: Record)
    requires IsBst(t)
    ensures forall k :: Find(Insert(t, r), k) == if k == r.number && k !in Keys(t) then Some(r) else Find(t, k)
  {
    forall k ensures Find(Insert(t, r), k) == if k == r.number && k !in Keys(t) then Some(r) else Find(t, k) {
      InsertThenFind(t, r, k);
    }
  }

  // ---------------------------------------------------------------- money

  /** Only the balance and the last-transaction stamp of a record move. */
  predicate Restamped(before: Record, after: Record, delta: int, now: string)
  {
    after.balance == before.balance + delta &&
    after.lastTx == now &&
    after.(balance := before.balance, lastTx := before.lastTx) == before
  }

  /** The tree after a balance change of `delta` on `acc`: same keys, that one
      record restamped, every other record as it was, the total moved by `delta`. */
  ghost predicate Moved(t: Tree, t': Tree, acc: string, delta: int, now: string)
    requires IsBst(t) && IsBst(t')
  {
    acc in Keys(t) &&
    Keys(t') == Keys(t) &&
    Find(t', acc).Some? &&
    Restamped(Find(t, acc).value, Find(t', acc).value, delta, now) &&
    (forall k | k != acc :: Find(t', k) == Find(t, k)) &&
    Total(t') == Total(t) + delta
  }

  function Credit(t: Tree, acc: string, delta: int, now: string): (t': Tree)
    requires IsBst(t) && acc in Keys(t)
    ensures IsBst(t') && Moved(t, t', acc, delta, now)
  {
    var prev := Find(t, acc).value;
    var r := prev.(balance := prev.balance + delta, lastTx := now);
    UpdateFindAll(t, r);
    UpdateTotal(t, r);
    Update(t, r)
  }

  /** handleDepositWithdrawal, deposit branch. */
  function Deposit(b: Bank, acc: string, amount: int, now: string): (r: Result<Bank>)
    requires Valid(b)
    ensures acc !in Keys(b.accounts) ==> r == Err(AccountNotFound)
    ensures acc in Keys(b.accounts) && amount <= 0 ==> r == Err(InvalidAmount)
    ensures acc in Keys(b.accounts) && amount > 0 ==>
      r.Ok? && Valid(r.value) &&
      Moved(b.accounts, r.value.accounts, acc, amount, now) &&
      r.value.ledger.history == b.ledger.history + [Tx.Deposit(amount, acc)] &&
      r.value == b.(accounts := r.value.accounts, ledger := r.value.ledger)
  {
    if acc !in Keys(b.accounts) then Err(AccountNotFound)
    else if amount <= 0 then Err(InvalidAmount)
    else Ok(b.(accounts := Credit(b.accounts, acc, amount, now),
               ledger := Tx.Append(b.ledger, Tx.Deposit(amount, acc))))
  }

  /** handleDepositWithdrawal, withdrawal branch: the whole balance may be taken,
      not more. */
  function Withdraw(b: Bank, acc: string, amount: int, now: string): (r: Result<Bank>)
    requires Valid(b)
    ensures acc !in Keys(b.accounts) ==> r == Err(AccountNotFound)
    ensures acc in Keys(b.accounts) && amount <= 0 ==> r == Err(InvalidAmount)
    ensures acc in Keys(b.accounts) && amount > 0 && amount > Find(b.accounts, acc).value.balance ==>
      r == Err(InsufficientFunds)
    ensures acc in Keys(b.accounts) && 0 < amount <= Find(b.accounts, acc).value.balance ==>
      r.Ok? && Valid(r.value) &&
      Moved(b.accounts, r.value.accounts, acc, -amount, now) &&
      r.value.ledger.history == b.ledger.history + [Tx.Withdrawal(amount, acc)] &&
      r.value == b.(accounts := r.value.accounts, ledger := r.value.ledger)
  {
    if acc !in Keys(b.accounts) then Err(AccountNotFound)
    else if amount <= 0 then Err(InvalidAmount)
    else if amount > Find(b.accounts, acc).value.balance then Err(InsufficientFunds)
    else Ok(b.(accounts := Credit(b.accounts, acc, -amount, now),
               ledger := Tx.Append(b.ledger, Tx.Withdrawal(amount, acc))))
  }

  /** A withdrawal never leaves a negative balance behind if there was none. */
  lemma WithdrawKeepsNonNegative(b: Bank, acc: string, amount: int, now: string)
    requires Valid(b) && acc in Keys(b.accounts)
    requires Find(b.accounts, acc).value.balance >= 0
    ensures Withdraw(b, acc, amount, now).Ok? ==>
      Find(Withdraw(b, acc, amount, now).value.accounts, acc).value.balance >= 0
  {
  }

  /** A deposit followed by a withdrawal of the same amount restores every
      balance and the total; only the stamps and the ledger remember it. */
  lemma DepositThenWithdraw(b: Bank, acc: string, amount: int, now: string, later: string)
    requires Valid(b) && acc in Keys(b.accounts) && amount > 0
    requires Find(b.accounts, acc).value.balance >= 0
    ensures Deposit(b, acc, amount, now).Ok?
    ensures Withdraw(Deposit(b, acc, amount, now).value, acc, amount, later).Ok?
    ensures
      var b2 := Withdraw(Deposit(b, acc, amount, now).value, acc, amount, later).value;
      Keys(b2.accounts) == Keys(b.accounts) &&
      (forall k | k in Keys(b.accounts) :: Find(b2.accounts, k).value.balance == Find(b.accounts, k).value.balance) &&
      Total(b2.accounts) == Total(b.accounts)
  {
    var b1 := Deposit(b, acc, amount, now).value;
    assert Moved(b.accounts, b1.accounts, acc, amount, now);
    var b2 := Withdraw(b1, acc, amount, later).value;
    assert Moved(b1.accounts, b2.accounts, acc, -amount, later);
    forall k | k in Keys(b.accounts)
      ensures Find(b2.accounts, k).value.balance == Find(b.accounts, k).value.balance
    {
      if k != acc {
        assert Find(b2.accounts, k) == Find(b1.accounts, k) == Find(b.accounts, k);
      }
    }
  }

  /** performFundTransfer. The checks run in the source's order: sender,
      recipient, same account, amount, funds. */
  function Transfer(b: Bank, from: string, to: string, amount: int, now: string): (r: Result<Bank>)
    requires Valid(b)
    ensures from !in Keys(b.accounts) ==> r == Err(AccountNotFound)
    ensures from in Keys(b.accounts) && to !in Keys(b.accounts) ==> r == Err(AccountNotFound)
    ensures from in Keys(b.accounts) && to in Keys(b.accounts) && from == to ==> r == Err(SameAccount)
    ensures from in Keys(b.accounts) && to in Keys(b.accounts) && from != to && amount <= 0 ==>
      r == Err(InvalidAmount)
    ensures from in Keys(b.accounts) && to in Keys(b.accounts) && from != to && amount > 0 ==>
      (amount > Find(b.accounts, from).value.balance ==> r == Err(InsufficientFunds))
    ensures r.Ok? <==>
      from in Keys(b.accounts) && to in Keys(b.accounts) && from != to &&
      0 < amount <= Find(b.accounts, from).value.balance
    ensures r.Ok? ==>
      Valid(r.value) &&
      PairMoved(b.accounts, r.value.accounts, from, to, amount, now) &&
      r.value.ledger.history == b.ledger.history + [Tx.TransferOut(amount, to, from), Tx.TransferIn(amount, from, to)] &&
      r.value == b.(accounts := r.value.accounts, ledger := r.value.ledger)
  {
    if from !in Keys(b.accounts) then Err(AccountNotFound)
    else if to !in Keys(b.accounts) then Err(AccountNotFound)
    else if from == to then Err(SameAccount)
    else if amount <= 0 then Err(InvalidAmount)
    else if amount > Find(b.accounts, from).value.balance then Err(InsufficientFunds)
    else
      var t2 := Credit(Credit(b.accounts, from, -amount, now), to, amount, now);
      CreditTwice(b.accounts, from, to, amount, now);
      var l1 := Tx.Append(b.ledger, Tx.TransferOut(amount, to, from));
      Ok(b.(accounts := t2, ledger := Tx.Append(l1, Tx.TransferIn(amount, from, to))))
  }

  /** The two balance changes of a transfer: the sender down, the recipient up
      by the same amount, nobody else touched. */
  ghost predicate PairMoved(t: Tree, t': Tree, from: string, to: string, amount: int, now: string)
    requires IsBst(t) && IsBst(t') && from in Keys(t) && to in Keys(t)
  {
    Keys(t') == Keys(t) &&
    Restamped(Find(t, from).value, Find(t', from).value, -amount, now) &&
    Restamped(Find(t, to).value, Find(t', to).value, amount, now) &&
    (forall k | k != from && k != to :: Find(t', k) == Find(t, k)) &&
    Total(t') == Total(t)
  }

  lemma CreditTwice(t: Tree, from: string, to: string, amount: int, now: string)
    requires IsBst(t) && from in Keys(t) && to in Keys(t) && from != to
    ensures IsBst(Credit(Credit(t, from, -amount, now), to, amount, now))
    ensures PairMoved(t, Credit(Credit(t, from, -amount, now), to, amount, now), from, to, amount, now)
  {
    var t1 := Credit(t, from, -amount, now);
    assert Find(t1, to) == Find(t, to);
  }

  // ------------------------------------------------------------- accounts

  /** What the account-creation screen collects. `deposit` is 0 when the
      customer declines the initial deposit. */
  datatype Application = Application(
    number: string,
    name: string,
    dob: string,
    age: string,
    address: string,
    phone: string,
    deposit: int,
    typeChoice: int,
    password: string)

  /** The record a successful creation stores. */
  function Opened(app: Application, now: string): (rec: Record)
    ensures rec.number == app.number && rec.balance == app.deposit
    ensures rec.name == app.name && rec.dob == app.dob && rec.age == app.age
    ensures rec.address == app.address && rec.phone == app.phone
    ensures rec.created == now && rec.lastTx == now
    ensures rec.accType == SavingLabel <==> app.typeChoice == 1
    ensures app.typeChoice != 1 ==> rec.accType == CurrentLabel
  {
    Record(app.number, app.name, app.dob, app.age, app.address, app.phone,
           app.deposit, AccountTypeLabel(app.typeChoice), now, now)
  }

  /** createNewAccount as it is written. The duplicate check looks only at the
      credential table, and leaves the prompt loop on any choice other than 1
      (try again) or 2 (go to login), so creation then goes ahead. */
  function CreateAccountAsWritten(b: Bank, app: Application, now: string, dupChoice: int): (r: Result<Bank>)
    requires Valid(b)
    ensures app.number in b.customers && (dupChoice == 1 || dupChoice == 2) ==> r == Err(DuplicateKey)
    ensures !(app.number in b.customers && (dupChoice == 1 || dupChoice == 2)) && app.deposit < 0 ==>
      r == Err(InvalidAmount)
    ensures r.Ok? <==> !(app.number in b.customers && (dupChoice == 1 || dupChoice == 2)) && app.deposit >= 0
    ensures r.Ok? ==>
      Valid(r.value) &&
      Keys(r.value.accounts) == Keys(b.accounts) + {app.number} &&
      Find(r.value.accounts, app.number) ==
        (if app.number in Keys(b.accounts) then Find(b.accounts, app.number) else Some(Opened(app, now))) &&
      (forall k | k != app.number :: Find(r.value.accounts, k) == Find(b.accounts, k)) &&
      Total(r.value.accounts) ==
        (if app.number in Keys(b.accounts) then Total(b.accounts) else Total(b.accounts) + app.deposit) &&
      r.value.customers == b.customers[app.number := app.password] &&
      r.value == b.(accounts := r.value.accounts, customers := r.value.customers)
  {
    if app.number in b.customers && (dupChoice == 1 || dupChoice == 2) then Err(DuplicateKey)
    else if app.deposit < 0 then Err(InvalidAmount)
    else
      var rec := Opened(app, now);
      InsertFindAll(b.accounts, rec);
      InsertTotal(b.accounts, rec);
      Ok(b.(customers := b.customers[app.number := app.password],
            accounts := Insert(b.accounts, rec)))
  }

  /** Account creation with the duplicate check that the "already exists"
      message of the creation screen promises: a number already in the tree or
      in the credential table is refused, so an existing account's record and
      password are never touched. */
  function CreateAccount(b: Bank, app: Application, now: string): (r: Result<Bank>)
    requires Valid(b)
    ensures app.number in b.customers || app.number in Keys(b.accounts) ==> r == Err(DuplicateKey)
    ensures app.number !in b.customers && app.number !in Keys(b.accounts) && app.deposit < 0 ==>
      r == Err(InvalidAmount)
    ensures r.Ok? <==>
      app.number !in b.customers && app.number !in Keys(b.accounts) && app.deposit >= 0
    ensures r.Ok? ==>
      Valid(r.value) &&
      Keys(r.value.accounts) == Keys(b.accounts) + {app.number} &&
      Find(r.value.accounts, app.number) == Some(Opened(app, now)) &&
      (forall k | k != app.number :: Find(r.value.accounts, k) == Find(b.accounts, k)) &&
      Total(r.value.accounts) == Total(b.accounts) + app.deposit &&
      r.value.customers.Keys == b.customers.Keys + {app.number} &&
      CustomerLogin(r.value, app.number, app.password) &&
      (forall k | k in b.customers :: r.value.customers[k] == b.customers[k]) &&
      r.value == b.(accounts := r.value.accounts, customers := r.value.customers)
  {
    if app.number in b.customers || app.number in Keys(b.accounts) then Err(DuplicateKey)
    else if app.deposit < 0 then Err(InvalidAmount)
    else
      var rec := Opened(app, now);
      InsertFindAll(b.accounts, rec);
      InsertTotal(b.accounts, rec);
      Ok(b.(customers := b.customers[app.number := app.password],
            accounts := Insert(b.accounts, rec)))
  }

  /** Inserting a new key adds its balance to the total; inserting a key
      already present adds nothing. */
  lemma {:induction false} InsertTotal(t: Tree, r: Record)
    requires IsBst(t)
    ensures Total(Insert(t, r)) == if r.number in Keys(t) then Total(t) else Total(t) + r.balance
  {
    if r.number !in Keys(t) {
      match t
      case Leaf =>
      case Node(left, x, right) =>
        if Less(r.number, x.number) {
          InsertTotal(left, r);
        } else {
          InsertTotal(right, r);
        }
    }
  }

  /** Finding: a number present in the tree but missing from the credential
      table passes the check as written. Creation reports success, the tree
      insert leaves the old record in place, and the new password now opens
      the old record. The intended behaviour refuses the number. */
  lemma AsWrittenDropsNewRecord(b: Bank, app: Application, now: string, dupChoice: int)
    requires Valid(b)
    requires app.number in Keys(b.accounts) && app.number !in b.customers && app.deposit >= 0
    ensures CreateAccountAsWritten(b, app, now, dupChoice).Ok?
    ensures Find(CreateAccountAsWritten(b, app, now, dupChoice).value.accounts, app.number) == Find(b.accounts, app.number)
    ensures CustomerLogin(CreateAccountAsWritten(b, app, now, dupChoice).value, app.number, app.password)
    ensures CreateAccount(b, app, now) == Err(DuplicateKey)
  {
  }

  /** Finding: at the "already exists" prompt, any choice other than 1 or 2
      lets creation go ahead, and the existing customer's password is
      replaced. The intended behaviour refuses the number. */
  lemma AsWrittenOverwritesPassword(b: Bank, app: Application, now: string, dupChoice: int)
    requires Valid(b)
    requires app.number in b.customers && app.number in Keys(b.accounts)
    requires dupChoice != 1 && dupChoice != 2 && app.deposit >= 0
    requires b.customers[app.number] != app.password
    ensures CreateAccountAsWritten(b, app, now, dupChoice).Ok?
    ensures !CustomerLogin(CreateAccountAsWritten(b, app, now, dupChoice).value, app.number, b.customers[app.number])
    ensures CustomerLogin(CreateAccountAsWritten(b, app, now, dupChoice).value, app.number, app.password)
    ensures CreateAccount(b, app, now) == Err(DuplicateKey)
  {
  }

  /** A concrete instance of the first finding: account 1001 is in the records
      file but not in the credentials file. */
  lemma DroppedRecordExample()
    ensures
      var prev := Record("1001", "Asha", "01/01/1990", "34", "Pune", "98", 500, CurrentLabel, "t0", "t0");
      var b := Bank(Node(Leaf, prev, Leaf), map[], map[], Tx.EmptyLedger, []);
      var app := Application("1001", "Ravi", "02/02/1992", "32", "Goa", "99", 0, 1, "pw");
      var r := CreateAccountAsWritten(b, app, "t1", 1);
      r.Ok? && Find(r.value.accounts, "1001") == Some(prev) && Some(prev) != Some(Opened(app, "t1"))
  {
    var prev := Record("1001", "Asha", "01/01/1990", "34", "Pune", "98", 500, CurrentLabel, "t0", "t0");
    var b := Bank(Node(Leaf, prev, Leaf), map[], map[], Tx.EmptyLedger, []);
    var app := Application("1001", "Ravi", "02/02/1992", "32", "Goa", "99", 0, 1, "pw");
    assert Valid(b) by { LessIrreflexive("1001"); }
    assert "1001" in Keys(b.accounts);
    AsWrittenDropsNewRecord(b, app, "t1", 1);
    assert prev.name != Opened(app, "t1").name;
  }

  /** Which field one modification step replaces. */
  datatype Field = Name | Dob | Age | Address | Phone | Password

  /** One step of the modification menu (choices 1-6). */
  datatype Edit = Edit(field: Field, value: string)

  function FieldOf(rec: Record, f: Field): string
  {
    match f
    case Name => rec.name
    case Dob => rec.dob
    case Age => rec.age
    case Address => rec.address
    case Phone => rec.phone
    // The password lives in the credential table, not in the record.
    case Password => ""
  }

  function ApplyEdit(rec: Record, e: Edit): Record
  {
    match e.field
    case Name => rec.(name := e.value)
    case Dob => rec.(dob := e.value)
    case Age => rec.(age := e.value)
    case Address => rec.(address := e.value)
    case Phone => rec.(phone := e.value)
    case Password => rec
  }

  /** The edits applied in the order they were chosen. */
  function EditRecord(rec: Record, edits: seq<Edit>): (rec': Record)
    ensures rec'.number == rec.number && rec'.balance == rec.balance && rec'.accType == rec.accType
    ensures rec'.created == rec.created && rec'.lastTx == rec.lastTx
    decreases |edits|
  {
    if |edits| == 0 then rec else EditRecord(ApplyEdit(rec, edits[0]), edits[1..])
  }

  /** Reference: the value a field ends with is the one chosen last for it. */
  function LastValue(edits: seq<Edit>, f: Field): Option<string>
    decreases |edits|
  {
    if |edits| == 0 then None
    else if edits[|edits| - 1].field == f then Some(edits[|edits| - 1].value)
    else LastValue(edits[..|edits| - 1], f)
  }

  lemma {:induction false} EditRecordSnoc(rec: Record, edits: seq<Edit>, e: Edit)
    ensures EditRecord(rec, edits + [e]) == ApplyEdit(EditRecord(rec, edits), e)
    decreases |edits|
  {
    if |edits| > 0 {
      assert (edits + [e])[1..] == edits[1..] + [e];
      EditRecordSnoc(ApplyEdit(rec, edits[0]), edits[1..], e);
    }
  }

  /** Each field of the modified record is the last value chosen for it, or
      its prev value when it was never chosen. */
  lemma {:induction false} EditRecordFields(rec: Record, edits: seq<Edit>, f: Field)
    requires f != Password
    ensures FieldOf(EditRecord(rec, edits), f) ==
      if LastValue(edits, f).Some? then LastValue(edits, f).value else FieldOf(rec, f)
    decreases |edits|
  {
    if |edits| > 0 {
      var init := edits[..|edits| - 1];
      var e := edits[|edits| - 1];
      assert edits == init + [e];
      EditRecordSnoc(rec, init, e);
      EditRecordFields(rec, init, f);
    }
  }

  /** modifyAccountDetails: the record's descriptive fields take the chosen
      values and each password choice replaces the account's credential; the
      balance and dates never change. */
  function Modify(b: Bank, acc: string, edits: seq<Edit>): (r: Result<Bank>)
    requires Valid(b)
    ensures r.Err? <==> acc !in Keys(b.accounts)
    ensures r.Err? ==> r.error == AccountNotFound
    ensures r.Ok? ==>
      Valid(r.value) &&
      Keys(r.value.accounts) == Keys(b.accounts) &&
      Find(r.value.accounts, acc) == Some(EditRecord(Find(b.accounts, acc).value, edits)) &&
      (forall k | k != acc :: Find(r.value.accounts, k) == Find(b.accounts, k)) &&
      Total(r.value.accounts) == Total(b.accounts) &&
      (LastValue(edits, Password).None? ==> r.value.customers == b.customers) &&
      (LastValue(edits, Password).Some? ==>
         r.value.customers == b.customers[acc := LastValue(edits, Password).value]) &&
      r.value == b.(accounts := r.value.accounts, customers := r.value.customers)
  {
    if acc !in Keys(b.accounts) then Err(AccountNotFound)
    else
      var rec := EditRecord(Find(b.accounts, acc).value, edits);
      UpdateFindAll(b.accounts, rec);
      UpdateTotal(b.accounts, rec);
      ResetLastWins(b.customers, acc, edits);
      var customers := Reset(b.customers, acc, edits);
      Ok(b.(accounts := Update(b.accounts, rec), customers := customers))
  }

  /** The password choices applied in order, each an upsert. */
  function Reset(m: CredentialMap, acc: string, edits: seq<Edit>): CredentialMap
    decreases |edits|
  {
    if |edits| == 0 then m
    else Reset(if edits[0].field == Password then m[acc := edits[0].value] else m, acc, edits[1..])
  }

  lemma {:induction false} ResetSnoc(m: CredentialMap, acc: string, edits: seq<Edit>, e: Edit)
    ensures Reset(m, acc, edits + [e]) ==
      var m' := Reset(m, acc, edits);
      if e.field == Password then m'[acc := e.value] else m'
    decreases |edits|
  {
    if |edits| > 0 {
      assert (edits + [e])[1..] == edits[1..] + [e];
      ResetSnoc(if edits[0].field == Password then m[acc := edits[0].value] else m, acc, edits[1..], e);
    }
  }

  /** The credential after a run of edits is the last password chosen. */
  lemma {:induction false} ResetLastWins(m: CredentialMap, acc: string, edits: seq<Edit>)
    ensures Reset(m, acc, edits) ==
      if LastValue(edits, Password).Some? then m[acc := LastValue(edits, Password).value] else m
    decreases |edits|
  {
    if |edits| > 0 {
      var init := edits[..|edits| - 1];
      var e := edits[|edits| - 1];
      assert edits == init + [e];
      ResetSnoc(m, acc, init, e);
      ResetLastWins(m, acc, init);
    }
  }

  /** addEmployee (employee menu): a new employee ID with its password. */
  function AddEmployee(b: Bank, id: string, secret: string): (r: Result<Bank>)
    ensures r.Err? <==> id in b.employees
    ensures r.Err? ==> r.error == DuplicateKey
    ensures r.Ok? ==>
      EmployeeLogin(r.value, id, secret) &&
      r.value.employees.Keys == b.employees.Keys + {id} &&
      (forall k | k in b.employees :: r.value.employees[k] == b.employees[k]) &&
      r.value == b.(employees := r.value.employees)
  {
    match AddNew(b.employees, id, secret)
    case Err(e) => Err(e)
    case Ok(m) => Ok(b.(employees := m))
  }

  // ------------------------------------------------------------ requests

  /** submitServiceRequest: the account must exist; the request carries the
      holder's name as the tree has it, and the reply is the queue position. */
  function SubmitRequest(b: Bank, acc: string, choice: int, description: string, now: string): (r: Result<(Bank, nat)>)
    requires Valid(b)
    ensures r.Err? <==> acc !in Keys(b.accounts)
    ensures r.Err? ==> r.error == AccountNotFound
    ensures r.Ok? ==>
      var (b', position) := r.value;
      position == |b'.queue| == |b.queue| + 1 &&
      b'.queue[..|b.queue|] == b.queue &&
      b'.queue[|b.queue|] == Request(now, acc, Find(b.accounts, acc).value.name, CategoryFor(choice), description) &&
      b' == b.(queue := b'.queue)
  {
    if acc !in Keys(b.accounts) then Err(AccountNotFound)
    else
      var req := Request(now, acc, Find(b.accounts, acc).value.name, CategoryFor(choice), description);
      var (q', position) := Enqueue(b.queue, req);
      Ok((b.(queue := q'), position))
  }

  /** manageServiceQueue, "process next". */
  function ProcessNext(b: Bank): (r: Result<(Bank, Request)>)
    ensures r.Err? <==> |b.queue| == 0
    ensures r.Err? ==> r.error == EmptyQueue
    ensures r.Ok? ==> r.value.1 == b.queue[0] && r.value.0 == b.(queue := b.queue[1..])
  {
    match Dequeue(b.queue)
    case Err(e) => Err(e)
    case Ok((front, rest)) => Ok((b.(queue := rest), front))
  }

  // ------------------------------------------------------------ invariants

  /** One customer or employee action. `OpenAccount` is the corrected
      creation; `OpenAccountAsWritten` is the program's own, with the answer
      given at the duplicate-number prompt. */
  datatype Action =
    | OpenAccount(app: Application)
    | OpenAccountAsWritten(app: Application, dupChoice: int)
    | DepositTo(acc: string, amount: int)
    | WithdrawFrom(acc: string, amount: int)
    | TransferFunds(from: string, to: string, amount: int)
    | ModifyAccount(acc: string, edits: seq<Edit>)
    | HireEmployee(id: string, secret: string)
    | Submit(acc: string, choice: int, description: string)
    | Process

  function Step(b: Bank, a: Action, now: string): Result<Bank>
    requires Valid(b)
  {
    match a
    case OpenAccount(app) => CreateAccount(b, app, now)
    case OpenAccountAsWritten(app, dupChoice) => CreateAccountAsWritten(b, app, now, dupChoice)
    case DepositTo(acc, amount) => Deposit(b, acc, amount, now)
    case WithdrawFrom(acc, amount) => Withdraw(b, acc, amount, now)
    case TransferFunds(from, to, amount) => Transfer(b, from, to, amount, now)
    case ModifyAccount(acc, edits) => Modify(b, acc, edits)
    case HireEmployee(id, secret) => AddEmployee(b, id, secret)
    case Submit(acc, choice, description) =>
      (match SubmitRequest(b, acc, choice, description, now)
       case Err(e) => Err(e)
       case Ok((b', _)) => Ok(b'))
    case Process =>
      (match ProcessNext(b)
       case Err(e) => Err(e)
       case Ok((b', _)) => Ok(b'))
  }

  /** Money enters only through deposits (including an opening deposit) and
      leaves only through withdrawals. An opening deposit counts only when the
      number is new to the tree: creation as written keeps an existing record. */
  function Inflow(b: Bank, a: Action): int
  {
    match a
    case OpenAccount(app) => app.deposit
    case OpenAccountAsWritten(app, _) => if app.number in Keys(b.accounts) then 0 else app.deposit
    case DepositTo(_, amount) => amount
    case WithdrawFrom(_, amount) => -amount
    case _ => 0
  }

  /** Every successful action keeps the bank well formed, keeps every account
      loginable, and moves the total held by exactly its inflow. */
  lemma StepInvariant(b: Bank, a: Action, now: string)
    requires Valid(b)
    ensures Step(b, a, now).Ok? ==>
      Valid(Step(b, a, now).value) &&
      Total(Step(b, a, now).value.accounts) == Total(b.accounts) + Inflow(b, a)
    ensures Step(b, a, now).Ok? && Covered(b) ==> Covered(Step(b, a, now).value)
  {
    match a
    case OpenAccount(app) =>
    case OpenAccountAsWritten(app, dupChoice) =>
    case DepositTo(acc, amount) =>
    case WithdrawFrom(acc, amount) =>
    case TransferFunds(from, to, amount) =>
    case ModifyAccount(acc, edits) =>
      if Step(b, a, now).Ok? {
        ResetLastWins(b.customers, acc, edits);
      }
    case HireEmployee(id, secret) =>
    case Submit(acc, choice, description) =>
    case Process =>
  }

  /** A single-account change that leaves that balance non-negative keeps
      every balance non-negative. */
  lemma MovedKeepsSolvent(t: Tree, t': Tree, acc: string, delta: int, now: string)
    requires IsBst(t) && IsBst(t') && Moved(t, t', acc, delta, now)
    requires forall k | k in Keys(t) :: Find(t, k).value.balance >= 0
    requires Find(t, acc).value.balance + delta >= 0
    ensures forall k | k in Keys(t') :: Find(t', k).value.balance >= 0
  {
    forall k | k in Keys(t') ensures Find(t', k).value.balance >= 0 {
      if k != acc {
        assert Find(t', k) == Find(t, k);
      }
    }
  }

  /** Inserting a record with a non-negative balance keeps every balance
      non-negative, whether or not its key was already stored. */
  lemma InsertKeepsSolvent(t: Tree, r: Record)
    requires IsBst(t) && r.balance >= 0
    requires forall k | k in Keys(t) :: Find(t, k).value.balance >= 0
    ensures forall k | k in Keys(Insert(t, r)) :: Find(Insert(t, r), k).value.balance >= 0
  {
    InsertFindAll(t, r);
  }

  lemma TransferKeepsSolvent(b: Bank, from: string, to: string, amount: int, now: string)
    requires Valid(b) && Solvent(b)
    ensures Transfer(b, from, to, amount, now).Ok? ==> Solvent(Transfer(b, from, to, amount, now).value)
  {
    if Transfer(b, from, to, amount, now).Ok? {
      var t' := Transfer(b, from, to, amount, now).value.accounts;
      forall k | k in Keys(t') ensures Find(t', k).value.balance >= 0 {
        if k != from && k != to {
          assert Find(t', k) == Find(b.accounts, k);
        }
      }
    }
  }

  lemma ModifyKeepsSolvent(b: Bank, acc: string, edits: seq<Edit>)
    requires Valid(b) && Solvent(b)
    ensures Modify(b, acc, edits).Ok? ==> Solvent(Modify(b, acc, edits).value)
  {
    if Modify(b, acc, edits).Ok? {
      var t' := Modify(b, acc, edits).value.accounts;
      forall k | k in Keys(t') ensures Find(t', k).value.balance >= 0 {
        if k != acc {
          assert Find(t', k) == Find(b.accounts, k);
        }
      }
    }
  }

  /** No action drives a balance below zero. */
  lemma StepKeepsSolvent(b: Bank, a: Action, now: string)
    requires Valid(b) && Solvent(b)
    ensures Step(b, a, now).Ok? ==> Valid(Step(b, a, now).value) && Solvent(Step(b, a, now).value)
  {
    if Step(b, a, now).Ok? {
      var b' := Step(b, a, now).value;
      match a
      case OpenAccount(app) =>
        InsertKeepsSolvent(b.accounts, Opened(app, now));
      case OpenAccountAsWritten(app, dupChoice) =>
        InsertKeepsSolvent(b.accounts, Opened(app, now));
      case DepositTo(acc, amount) =>
        MovedKeepsSolvent(b.accounts, b'.accounts, acc, amount, now);
      case WithdrawFrom(acc, amount) =>
        MovedKeepsSolvent(b.accounts, b'.accounts, acc, -amount, now);
      case TransferFunds(from, to, amount) =>
        TransferKeepsSolvent(b, from, to, amount, now);
      case ModifyAccount(acc, edits) =>
        ModifyKeepsSolvent(b, acc, edits);
      case HireEmployee(id, secret) =>
      case Submit(acc, choice, description) =>
      case Process =>
    }
  }
}
