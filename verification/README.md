# BankingSystem record core, modelled in Dafny

This project models the record-management core of `BankingSystem.cpp`, a console banking
program. The modelled parts are:

- **Record store.** An unbalanced binary search tree of account records, keyed by account
  number and ordered by `std::string` comparison. The model covers insert, search, in-order
  traversal, and the case-insensitive substring search by name.
- **Records file** `Bank_Record.csv`. The tokenizer, the ten-field line format, the loader
  (it skips short lines and keeps the first of duplicate keys) and the in-order save.
- **Credential tables.** Customer logins keyed by account number and employee logins keyed
  by employee ID. The model covers the `id,secret` line format, loading (split at the first
  comma, last line wins), saving in `std::map` order, seeding the default `admin`/`admin123`
  employee, adding an employee, and the login checks.
- **Ledger.** The full transaction history vector and the "recent" stack, always appended
  together, plus the newest-first view of at most ten entries.
- **Service queue.** Submitting a request (the reply is the queue position), processing the
  front request, and the numbered listing that leaves the queue intact.
- **Use cases.** Account creation, modification of descriptive fields and password,
  deposit, withdrawal and transfer.

Every use case is a pure function from a `Bank` value to a `Result`. The result holds the new
`Bank`, or for `SubmitRequest` and `ProcessNext` the new `Bank` paired with the queue
position or the request handed out. The `Bank` holds the tree, both credential maps, the
ledger and the queue. An error carries no bank, so a refused
operation changes nothing. The clock is a parameter (`now`). Persistence is modelled as
functions between a tree and a sequence of lines.

Modules, in dependency order:

- `Outcome`: `Option`, `Result` and the error kinds.
- `KeyOrder`: the string order, proved to be a strict total order.
- `Text`: find, count, `tolower` and substring search.
- `Decimal`: balance text.
- `Account`: the record.
- `RecordStore`: the tree.
- `RecordFile`: the records file.
- `Credentials`: the credential tables.
- `Transactions`: the ledger.
- `ServiceQueue`: the service queue.
- `Banking`: the use cases and the bank-wide invariants.

## Model

| member | source | states |
|---|---|---|
| KeyOrder.LessIsStrictTotalOrder | BankingSystem.cpp:92-99 | the key comparison that steers insert and search is irreflexive, transitive and total on distinct keys, so a key has exactly one place in the tree |
| KeyOrder.MinimumExists | BankingSystem.cpp:427-429 | every non-empty set of ids has a least id, which is where an ordered credential map's iteration starts |
| RecordStore.Find | BankingSystem.cpp:104-115 | search finds a record exactly when its key is stored; the record found has that key and is the only stored record with it |
| RecordStore.Insert | BankingSystem.cpp:85-101 | insertion keeps the search-tree order, adds exactly the new key, and leaves the tree unchanged when the key is already present (the equal-key branch does nothing) |
| RecordStore.InsertThenFind | BankingSystem.cpp:85-101 | after an insert, the new key finds the new record only if the key was absent; every other key finds what it found before |
| RecordStore.InsertRecords | BankingSystem.cpp:85-101 | an insert adds the new record to the stored set, or adds nothing when its key exists |
| RecordStore.InOrderMembers | BankingSystem.cpp:118-130 | the traversal lists exactly the stored records |
| RecordStore.InOrderAscending | BankingSystem.cpp:118-130 | the traversal lists records in strictly ascending account-number order |
| RecordStore.UpdateThenFind | BankingSystem.cpp:863-868 | overwriting a stored record's fields in place changes what its key finds and nothing else; an absent key changes nothing |
| RecordStore.UpdateTotal | BankingSystem.cpp:977-982 | overwriting one record moves the sum of all balances by that record's balance change |
| RecordStore.SearchByName | BankingSystem.cpp:730-764 | a record is reported exactly when it is stored and its lower-cased name contains the lower-cased query |
| RecordStore.SearchIsMatchingListing | BankingSystem.cpp:730-764 | the name search equals the in-order listing filtered by the match, so matches come in traversal order |
| RecordStore.SearchAscending | BankingSystem.cpp:730-764 | name-search results are in ascending account-number order |
| RecordStore.EmptyQueryListsAll | BankingSystem.cpp:738-743 | an empty query matches every account and lists the whole tree in order |
| RecordStore.InsertAllFind | BankingSystem.cpp:196-201 | after loading lines in file order, a key finds its record from the first line with that key; later duplicates are ignored |
| RecordStore.InsertAllAscending | BankingSystem.cpp:181-202 | loading lines that ascend by key builds a tree whose traversal is exactly those lines |
| Text.ContainsIffOccurs | BankingSystem.cpp:743 | the left-to-right substring scan succeeds exactly when the needle occurs at some position |
| Text.Lower | BankingSystem.cpp:740-741 | lower-casing keeps the length and maps every character through `tolower` |
| Text.IndexFromFirst | BankingSystem.cpp:192 | find from a start position returns the first matching position at or after it |
| Decimal.IntRoundTrip | BankingSystem.cpp:832 | the balance text written for any integer balance reads back as the same balance |
| Account.AccountTypeLabel | BankingSystem.cpp:531 | choice 1 gives "Saving" and any other choice gives "Current" |
| RecordFile.Tokenize | BankingSystem.cpp:183-194 | the find-and-cut loop yields exactly the reference split of the line, with one more token than the line has commas |
| RecordFile.SplitCount | BankingSystem.cpp:183-194 | a line splits into one more token than it has commas |
| RecordFile.SplitJoin | BankingSystem.cpp:149-152 | comma-free fields joined with commas split back into exactly those fields |
| RecordFile.ParseRecord | BankingSystem.cpp:196-201 | a line with fewer than ten tokens yields no record; a line with ten or more tokens whose seventh token is an integer yields the record whose fields are the first ten tokens in order, and tokens past the tenth are ignored |
| RecordFile.CommaNameShift | BankingSystem.cpp:149-152 | a name holding one comma, written unescaped, comes back as two tokens: the record read back has the name's head as its name and the tail as its date of birth, every later field moved up by one, the balance read from the phone field (the line is skipped if that is not an integer), and the record is never the one written |
| RecordFile.RecordRoundTrip | BankingSystem.cpp:149-152 | a record whose text fields hold no comma or line break is read back unchanged from the line written for it |
| RecordFile.LoadRecords | BankingSystem.cpp:171-204 | whatever the file holds, the loaded store is a well-formed search tree |
| RecordFile.LoadRecordsFind | BankingSystem.cpp:171-204 | a missing records file gives an empty store; otherwise each account number finds the record of the first parsed line with that number |
| RecordFile.ParseFormatLines | BankingSystem.cpp:144-155 | formatting storable records line by line and parsing the lines back gives the same records in the same order |
| RecordFile.SaveLoadRoundTrip | BankingSystem.cpp:207-220 | saving a store and loading the file back gives the same accounts in the same order |
| RecordFile.SaveLoadSave | BankingSystem.cpp:207-220 | saving, loading and saving again writes the same file as the first save |
| RecordFile.SaveLoadFind | BankingSystem.cpp:159-162 | a store rebuilt from its own file answers every lookup as before |
| Credentials.ParseLine | BankingSystem.cpp:383-389 | a credential line carries an entry exactly when it has a comma; the id is the comma-free text before the first comma and the secret is everything after it |
| Credentials.LineRoundTrip | BankingSystem.cpp:427-429 | a written line with a comma-free id reads back as the same id and secret |
| Credentials.CommaFreeLineIgnored | BankingSystem.cpp:384 | a line without a comma leaves the loaded table unchanged |
| Credentials.LoadLastWins | BankingSystem.cpp:388 | when an id appears on several lines, the secret on its last line wins |
| Credentials.LoadUntouched | BankingSystem.cpp:381-390 | ids that appear on no line keep their previous entry, or stay absent |
| Credentials.Save | BankingSystem.cpp:421-456 | one line per entry, in strictly ascending id order; when no id has a comma, loading the lines rebuilds the table exactly |
| Credentials.LoadEmployees | BankingSystem.cpp:396-417 | a missing employee file adds exactly admin/admin123, keeps every other entry and requests a save; an existing file is loaded line by line |
| Credentials.LoadCustomers | BankingSystem.cpp:377-393 | a missing customer file leaves the table as it was; an existing file is loaded line by line |
| Credentials.AddNew | BankingSystem.cpp:1268-1279 | an id already present is refused with a duplicate error; otherwise it is added with its secret and every other entry is kept |
| Credentials.UpsertThenVerify | BankingSystem.cpp:1356 | after a password is set, login with that id succeeds with exactly that password; other ids log in as before |
| Transactions.RecentView | BankingSystem.cpp:1028-1039 | the view shows min(10, n) entries, newest first, and flags "more" exactly when more than ten exist |
| Transactions.RecentIsHistorySuffix | BankingSystem.cpp:864-865 | the entries shown are the newest entries of the full history, newest first |
| Transactions.AppendInStep | BankingSystem.cpp:991-994 | appending keeps the history and the stack in step; each grows by exactly the new entry |
| ServiceQueue.CategoryFor | BankingSystem.cpp:1083-1090 | choices 1, 2 and 3 name their categories and any other choice is Other |
| ServiceQueue.Enqueue | BankingSystem.cpp:1096-1100 | a submitted request goes to the back, earlier requests keep their order, and the reported position is the new queue length |
| ServiceQueue.Dequeue | BankingSystem.cpp:1143-1150 | processing an empty queue is an error; otherwise the front request leaves and the rest keep their order |
| ServiceQueue.ListAll | BankingSystem.cpp:1157-1166 | the listing numbers every pending request from 1, front to back, and leaves the queue intact |
| ServiceQueue.Fifo | BankingSystem.cpp:1096-1146 | requests are processed in submission order, after the ones already waiting |
| Banking.Deposit | BankingSystem.cpp:787-877 | an unknown account or a non-positive amount is refused; otherwise only that balance rises by the amount, the account is stamped, the total rises by the amount and one deposit entry is logged |
| Banking.Withdraw | BankingSystem.cpp:843-871 | an amount above the balance is refused with insufficient funds, and the whole balance may be taken; on success only that balance falls and one withdrawal entry is logged |
| Banking.WithdrawKeepsNonNegative | BankingSystem.cpp:845-851 | a withdrawal never leaves a negative balance behind a non-negative one |
| Banking.DepositThenWithdraw | BankingSystem.cpp:832-871 | depositing and then withdrawing the same amount restores every balance and the total |
| Banking.Transfer | BankingSystem.cpp:909-1007 | checks run in order (sender exists, recipient exists, different accounts, positive amount, sufficient funds), and the transfer succeeds exactly when all five pass; on success the sender loses and the recipient gains the amount, both share one timestamp, the total is conserved, and out/in entries are logged in that order |
| Banking.CreditTwice | BankingSystem.cpp:977-986 | the two balance writes of a transfer touch only sender and recipient and conserve the total |
| Banking.CreateAccount | BankingSystem.cpp:462-555 | corrected creation: a number known to the tree or the credentials is refused, as is a negative opening deposit; creation succeeds exactly when neither applies, and then the new record and password are stored, no other record or password changes, and the total rises by the deposit |
| Banking.Opened | BankingSystem.cpp:529-540 | a new account carries the number, name, date of birth, age, address and phone given on the creation screen; its balance is its opening deposit, both dates are the creation time, and its type is "Saving" for choice 1 and "Current" for any other choice |
| Banking.InsertTotal | BankingSystem.cpp:540 | inserting a new account adds its balance to the total; inserting a number already in the tree leaves the total as it was |
| Banking.CreateAccountAsWritten | BankingSystem.cpp:462-555 | creation as written: refused when the number is in the credential table and the prompt answer is 1 or 2, or when the deposit is negative, and succeeds otherwise; on success the number's credential becomes the given password, a number new to the tree finds the opened record and adds its deposit to the total, a number already in the tree keeps its old record and the total, and no other record changes |
| Banking.AsWrittenDropsNewRecord | BankingSystem.cpp:474 | with a number in the tree but not in the credentials, creation as written succeeds, the tree keeps the old record, the new password opens it, and the corrected creation refuses |
| Banking.AsWrittenOverwritesPassword | BankingSystem.cpp:481-488 | with an existing number and a prompt answer other than 1 or 2, creation as written replaces the old password, and the corrected creation refuses |
| Banking.DroppedRecordExample | BankingSystem.cpp:474 | a concrete bank and application in which creation as written reports success but the stored record is still the old one |
| Banking.EditRecordFields | BankingSystem.cpp:592-662 | after a run of edits, each descriptive field holds the last value chosen for it, or its old value if it was never chosen |
| Banking.ResetLastWins | BankingSystem.cpp:638-644 | after a run of edits, the account's credential is the last password chosen, or unchanged if none was |
| Banking.Modify | BankingSystem.cpp:558-673 | an unknown account is refused; otherwise only that record changes, and only in its descriptive fields, the balance total is unchanged, and the credential becomes the last password chosen |
| Banking.AddEmployee | BankingSystem.cpp:1268-1279 | an existing employee ID is refused; otherwise the new ID logs in with its password and no other employee entry changes |
| Banking.SubmitRequest | BankingSystem.cpp:1048-1107 | an unknown account is refused; otherwise a request with the holder's stored name joins the back of the queue and the reply is its position |
| Banking.ProcessNext | BankingSystem.cpp:1143-1150 | an empty queue is refused; otherwise the front request is handed out and removed |
| Banking.StepInvariant | BankingSystem.cpp:539-540 | every successful action, including creation as written, keeps the tree ordered and the ledger in step, on any bank, including one with accounts that have no credential; when every account had a credential, every account still has one; the total held moves by exactly the action's deposit or withdrawal, where an opening deposit counts only when the number is new to the tree |
| Banking.StepKeepsSolvent | BankingSystem.cpp:969-974 | no action, including creation as written, leaves a negative balance when none was negative before |

## Left out

- Console I/O, colours, password masking, menus and screen flow are left out. This covers
  the mutual recursion between `main` and the menus, and the `Bank` object rebuilt by each
  menu entry. That rebuild reloads the records file. `RecordFile.SaveLoadFind` shows that a
  reload answers every lookup as before, but only for records whose text fields hold no comma
  or line break.
- File I/O is left out. A file is a sequence of lines, and a missing file is `None`. A failed
  write is not modelled.
- The clock (`getCurrentDateTime`) is a parameter `now`.
- The `cin` re-prompt loops are modelled as errors (`InvalidAmount`) rather than as repeated
  input. The menu choices they validate are parameters.
- Balances are stored as `float` text written by `to_string` and read by `stof`. The model
  uses integer minor units written as optional `-` and decimal digits. Float rounding and
  `to_string`'s six decimals are left out.
- RecordFile.ParseRecord: skips a line whose seventh field is not an integer. The source keeps
  any text there and only `stof` would fail on it later.
- The transaction description strings (`"Deposit: +Rs ..."`) are modelled as the structured
  `Transactions.Entry` values they are built from. The text formatting is left out.
- The service request string is modelled as the `ServiceQueue.Request` fields it
  concatenates.
- `clearTree` and the destructor only free memory and are left out.
- Credentials.Save, RecordFile.SaveLoadRoundTrip and RecordFile.SaveLoadFind: the round trip
  holds only for ids and text fields free of commas and line breaks. The flat format cannot
  carry those characters, and the source does not check for them. Every text field can hold a
  comma. Name, date of birth and address are read with `getline` (BankingSystem.cpp:494, 497,
  504, 610, 616, 628). The account number, age and phone are read with `cin >>`, which stops
  only at whitespace (BankingSystem.cpp:472, 500, 507, 622, 634). The model's loader reproduces
  what happens to such a record. `RecordFile.CommaNameShift` proves it for a name holding one
  comma: every later field shifts by one token, and the phone is read as the balance. No
  lemma states the shift for commas in the other fields.
- Strings are sequences of Unicode characters here; the source's `std::string` holds bytes. The
  key order `KeyOrder.Less` and `Text.LowerChar` agree with the source on ASCII text, and byte
  order of UTF-8 agrees with character order, so only the encoding itself is left out.
- `Banking.Step` carries both creation paths: `OpenAccount` is the corrected creation and
  `OpenAccountAsWritten` is the program's own.
- Only the two creation paths are modelled for the duplicate-number prompt. Choice 2 jumps to
  the customer login screen, which is modelled as a refusal.

## Findings

| source | as written | input that shows it | evidently intended | confidence | as-written member | corrected member |
|---|---|---|---|---|---|---|
| BankingSystem.cpp:474 | the duplicate check looks only in the customer credential table, not in the record tree | the records file has a line for account 1001 and the credentials file has none; create account 1001 | refuse a number already in the tree; as written, creation reports success, the tree insert keeps the old record, and the new password now opens someone else's account | medium, not executed | Banking.AsWrittenDropsNewRecord | Banking.CreateAccount |
| BankingSystem.cpp:481-488 | the loop repeats only on choice 1; any answer other than 1 or 2 leaves it with the number still taken | existing account 1001 with password "old"; answer 3 at the "already exists" prompt and enter password "new" | refuse the number; as written, creation proceeds, the old password is overwritten, and the old record stays | medium, not executed | Banking.AsWrittenOverwritesPassword | Banking.CreateAccount |
