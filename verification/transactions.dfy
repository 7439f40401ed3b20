/** The transaction ledger: the unbounded history (a vector) and the "recent"
    stack, appended in step, and the newest-first view of the stack. */
module Transactions {

  /** One committed money movement, as the description strings name it. */
  datatype Entry =
    | Deposit(amount: int, account: string)
    | Withdrawal(amount: int, account: string)
    | TransferOut(amount: int, to: string, from: string)
    | TransferIn(amount: int, from: string, to: string)

  /** `history` is transactionHistory; `recent` is recentTransactions with its
      top as the last element. */
  datatype Ledger = Ledger(history: seq<Entry>, recent: seq<Entry>)

  const EmptyLedger: Ledger := Ledger([], [])

  /** The view shows at most this many entries. */
  const RecentShown: nat := 10

  /** Both logs receive every entry, in the same order. */
  predicate InStep(l: Ledger)
  {
    l.history == l.recent
  }

  function Append(l: Ledger, e: Entry): Ledger
  {
    Ledger(l.history + [e], l.recent + [e])
  }

  /** viewTransactionHistory: pop a copy of the stack at most ten times. The
      stack itself is a value and is left as it was; `more` is the "more
      transactions available" note. */
  method RecentView(recent: seq<Entry>) returns (shown: seq<Entry>, more: bool)
    ensures |shown| == if |recent| < RecentShown then |recent| else RecentShown
    ensures forall i | 0 <= i < |shown| :: shown[i] == recent[|recent| - 1 - i]
    ensures more <==> |recent| > RecentShown
  {
    var temp := recent;
    shown := [];
    var count := 0;
    while |temp| > 0 && count < RecentShown
      invariant 0 <= count <= RecentShown
      invariant |temp| + count == |recent|
      invariant temp == recent[..|temp|]
      invariant |shown| == count
      invariant forall i | 0 <= i < count :: shown[i] == recent[|recent| - 1 - i]
    {
      shown := shown + [temp[|temp| - 1]];
      temp := temp[..|temp| - 1];
      count := count + 1;
    }
    more := |recent| > RecentShown;
  }

  /** With the logs in step, the view is the newest entries of the full history,
      newest first: the history's last min(10, n) entries reversed. */
  lemma RecentIsHistorySuffix(l: Ledger, shown: seq<Entry>)
    requires InStep(l)
    requires |shown| == if |l.recent| < RecentShown then |l.recent| else RecentShown
    requires forall i | 0 <= i < |shown| :: shown[i] == l.recent[|l.recent| - 1 - i]
    ensures forall i | 0 <= i < |shown| :: shown[i] == l.history[|l.history| - 1 - i]
    ensures |shown| <= |l.history|
  {
  }

  /** Appending keeps the two logs in step, each growing by exactly the new entry. */
  lemma AppendInStep(l: Ledger, e: Entry)
    requires InStep(l)
    ensures InStep(Append(l, e))
    ensures Append(l, e).history[..|l.history|] == l.history
    ensures Append(l, e).history[|l.history|] == e
  {
  }
}
