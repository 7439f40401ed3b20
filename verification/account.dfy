/** One customer account, as held in a node of the record tree and as one line
    of the records file. */
module Account {

  /** Every field is free text except the balance, which is integer minor units.
      `number` is the key; `created` never changes after creation and
      `lastTx` is stamped by every balance change. */
  datatype Record = Record(
    number: string,
    name: string,
    dob: string,
    age: string,
    address: string,
    phone: string,
    balance: int,
    accType: string,
    created: string,
    lastTx: string)

  const SavingLabel: string := "Saving"
  const CurrentLabel: string := "Current"

  /** The account-type menu: choice 1 is a saving account, anything else current. */
  function AccountTypeLabel(choice: int): (text: string)
    ensures text == SavingLabel <==> choice == 1
    ensures text == SavingLabel || text == CurrentLabel
  {
    if choice == 1 then SavingLabel else CurrentLabel
  }
}
