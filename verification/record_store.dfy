/** The account record store: an unbalanced binary search tree keyed by
    account number (Bank::insert, Bank::search and the in-order traversals). */
module RecordStore {
  import opened Outcome
  import opened KeyOrder
  import opened Text
  import opened Account

  datatype Tree = Leaf | Node(left: Tree, rec: Record, right: Tree)

  function Keys(t: Tree): set<string>
  {
    match t
    case Leaf => {}
    case Node(l, r, rt) => Keys(l) + {r.number} + Keys(rt)
  }

  function Records(t: Tree): set<Record>
  {
    match t
    case Leaf => {}
    case Node(l, r, rt) => Records(l) + {r} + Records(rt)
  }

  /** Keys in the left subtree sort before the node's key, keys in the right after it. */
  predicate IsBst(t: Tree)
  {
    match t
    case Leaf => true
    case Node(l, r, rt) =>
      && IsBst(l)
      && IsBst(rt)
      && (forall k | k in Keys(l) :: Less(k, r.number))
      && (forall k | k in Keys(rt) :: Less(r.number, k))
  }

  lemma KeysOfRecords(t: Tree)
    ensures forall r | r in Records(t) :: r.number in Keys(t)
    ensures forall k | k in Keys(t) :: exists r :: r in Records(t) && r.number == k
  {
  }

  /** Bank::search: the stored record with key `k`, if any. */
  function Find(t: Tree, k: string): (found: Option<Record>)
    requires IsBst(t)
    ensures found.Some? <==> k in Keys(t)
    ensures found.Some? ==> found.value in Records(t) && found.value.number == k
    ensures forall r | r in Records(t) && r.number == k :: found == Some(r)
  {
    match t
    case Leaf => None
    case Node(l, x, rt) =>
      KeysOfRecords(l);
      KeysOfRecords(rt);
      if k == x.number then
        LessIrreflexive(k);
        Some(x)
      else if Less(k, x.number) then
        LessAsymmetric(k, x.number);
        Find(l, k)
      else
        LessTotal(k, x.number);
        Find(rt, k)
  }

  /** Bank::insert: a new key becomes a new leaf; an existing key leaves the tree as it was. */
  function Insert(t: Tree, r: Record): (t': Tree)
    requires IsBst(t)
    ensures IsBst(t')
    ensures Keys(t') == Keys(t) + {r.number}
    ensures r.number in Keys(t) ==> t' == t
  {
    match t
    case Leaf => Node(Leaf, r, Leaf)
    case Node(l, x, rt) =>
      if Less(r.number, x.number) then
        LessIrreflexive(r.number);
        LessAsymmetric(r.number, x.number);
        Node(Insert(l, r), x, rt)
      else if Less(x.number, r.number) then
        LessIrreflexive(r.number);
        LessAsymmetric(x.number, r.number);
        Node(l, x, Insert(rt, r))
      else
        LessTotal(r.number, x.number);
        t
  }

  /** Lookups after an insert: the new key finds the new record unless the key
      was already stored, in which case the original record is still found;
      every other key finds what it found before. */
  lemma InsertThenFind(t: Tree, r: Record, k: string)
    requires IsBst(t)
    ensures Find(Insert(t, r), k) == if k == r.number && k !in Keys(t) then Some(r) else Find(t, k)
  {
    KeysOfRecords(t);
    InsertRecords(t, r);
  }

  /** A new key adds exactly its record; an existing key adds nothing. */
  lemma {:induction false} InsertRecords(t: Tree, r: Record)
    requires IsBst(t)
    ensures Records(Insert(t, r)) == if r.number in Keys(t) then Records(t) else Records(t) + {r}
  {
    match t
    case Leaf =>
    case Node(l, x, rt) =>
      if Less(r.number, x.number) {
        LessAsymmetric(r.number, x.number);
        InsertRecords(l, r);
      } else if Less(x.number, r.number) {
        LessAsymmetric(x.number, r.number);
        InsertRecords(rt, r);
      }
  }

  /** Bank::inorder and saveAccountsToFileHelper: left subtree, node, right subtree. */
  function InOrder(t: Tree): seq<Record>
  {
    match t
    case Leaf => []
    case Node(l, r, rt) => InOrder(l) + [r] + InOrder(rt)
  }

  /** The traversal visits every stored record and nothing else. */
  lemma {:induction false} InOrderMembers(t: Tree)
    ensures forall r :: r in InOrder(t) <==> r in Records(t)
  {
    match t
    case Leaf =>
    case Node(l, x, rt) =>
      InOrderMembers(l);
      InOrderMembers(rt);
  }

  /** The account numbers of a run of records, in order. */
  function Numbers(s: seq<Record>): (keys: seq<string>)
    ensures |keys| == |s|
    ensures forall i | 0 <= i < |s| :: keys[i] == s[i].number
  {
    seq(|s|, i requires 0 <= i < |s| => s[i].number)
  }

  /** Records in strictly ascending account-number order. */
  predicate Ascending(s: seq<Record>)
  {
    StrictlyAscending(Numbers(s))
  }

  /** Two ascending runs either side of a pivot key form one ascending run. */
  lemma AscendingAroundPivot(a: seq<Record>, x: Record, b: seq<Record>)
    requires Ascending(a) && Ascending(b)
    requires forall i | 0 <= i < |a| :: Less(a[i].number, x.number)
    requires forall j | 0 <= j < |b| :: Less(x.number, b[j].number)
    ensures Ascending(a + [x] + b)
  {
    var s := a + [x] + b;
    forall i, j | 0 <= i < j < |s| ensures Less(s[i].number, s[j].number) {
      if j < |a| {
        assert s[i] == a[i] && s[j] == a[j];
      } else if i > |a| {
        assert s[i] == b[i - |a| - 1] && s[j] == b[j - |a| - 1];
      } else if i == |a| {
        assert s[j] == b[j - |a| - 1];
      } else if j == |a| {
        assert s[i] == a[i];
      } else {
        assert s[i] == a[i] && s[j] == b[j - |a| - 1];
        LessTransitive(s[i].number, x.number, s[j].number);
      }
    }
  }

  /** The traversal behind listing and saving yields strictly ascending, hence distinct, keys. */
  lemma {:induction false} InOrderAscending(t: Tree)
    requires IsBst(t)
    ensures Ascending(InOrder(t))
  {
    match t
    case Leaf =>
    case Node(l, x, rt) =>
      InOrderAscending(l);
      InOrderAscending(rt);
      InOrderMembers(l);
      InOrderMembers(rt);
      KeysOfRecords(l);
      KeysOfRecords(rt);
      var left, right := InOrder(l), InOrder(rt);
      forall i | 0 <= i < |left| ensures Less(left[i].number, x.number) {
        assert left[i] in Records(l);
      }
      forall j | 0 <= j < |right| ensures Less(x.number, right[j].number) {
        assert right[j] in Records(rt);
      }
      AscendingAroundPivot(left, x, right);
  }

  /** Sum of all balances. */
  function Total(t: Tree): int
  {
    match t
    case Leaf => 0
    case Node(l, r, rt) => Total(l) + r.balance + Total(rt)
  }

  /** In-place mutation through the node Bank::search returned: the record
      stored under `r.number` is replaced by `r`; an absent key changes nothing. */
  function Update(t: Tree, r: Record): (t': Tree)
    requires IsBst(t)
    ensures IsBst(t')
    ensures Keys(t') == Keys(t)
    ensures r.number !in Keys(t) ==> t' == t
  {
    match t
    case Leaf => Leaf
    case Node(l, x, rt) =>
      if Less(r.number, x.number) then
        Node(Update(l, r), x, rt)
      else if Less(x.number, r.number) then
        Node(l, x, Update(rt, r))
      else
        LessTotal(r.number, x.number);
        Node(l, r, rt)
  }

  /** After an update the key finds the new record and every other key finds
      what it found before. */
  lemma {:induction false} UpdateThenFind(t: Tree, r: Record, k: string)
    requires IsBst(t)
    ensures Find(Update(t, r), k) == if k == r.number && k in Keys(t) then Some(r) else Find(t, k)
  {
    match t
    case Leaf =>
    case Node(l, x, rt) =>
      if Less(r.number, x.number) {
        UpdateThenFind(l, r, k);
        LessAsymmetric(r.number, x.number);
        LessIrreflexive(r.number);
      } else if Less(x.number, r.number) {
        UpdateThenFind(rt, r, k);
        LessAsymmetric(r.number, x.number);
        LessIrreflexive(r.number);
      } else {
        LessTotal(r.number, x.number);
      }
  }

  /** An update moves the total balance by exactly the change in the updated record. */
  lemma {:induction false} UpdateTotal(t: Tree, r: Record)
    requires IsBst(t)
    requires r.number in Keys(t)
    ensures Total(Update(t, r)) == Total(t) - Find(t, r.number).value.balance + r.balance
  {
    match t
    case Node(l, x, rt) =>
      if Less(r.number, x.number) {
        LessAsymmetric(r.number, x.number);
        LessIrreflexive(r.number);
        UpdateTotal(l, r);
      } else if Less(x.number, r.number) {
        LessAsymmetric(r.number, x.number);
        LessIrreflexive(r.number);
        UpdateTotal(rt, r);
      } else {
        LessTotal(r.number, x.number);
      }
  }

  /** The name match of searchAccountRecord: ASCII case-insensitive substring
      search; the empty query matches every name. */
  predicate NameMatches(name: string, query: string)
  {
    Contains(Lower(name), Lower(query))
  }

  /** The name search: an in-order walk that reports every matching record. */
  function SearchByName(t: Tree, query: string): (found: seq<Record>)
    ensures forall r :: r in found <==> r in Records(t) && NameMatches(r.name, query)
  {
    match t
    case Leaf => []
    case Node(l, x, rt) =>
      SearchByName(l, query) + (if NameMatches(x.name, query) then [x] else []) + SearchByName(rt, query)
  }

  /** Reference definition: the records of a listing whose names match, in listing order. */
  function Matching(s: seq<Record>, query: string): (m: seq<Record>)
    ensures forall r :: r in m <==> r in s && NameMatches(r.name, query)
  {
    if |s| == 0 then []
    else (if NameMatches(s[0].name, query) then [s[0]] else []) + Matching(s[1..], query)
  }

  lemma {:induction false} MatchingConcat(a: seq<Record>, b: seq<Record>, query: string)
    ensures Matching(a + b, query) == Matching(a, query) + Matching(b, query)
  {
    if |a| > 0 {
      assert (a + b)[1..] == a[1..] + b;
      MatchingConcat(a[1..], b, query);
    } else {
      assert a + b == b;
    }
  }

  lemma {:induction false} MatchingAscending(s: seq<Record>, query: string)
    requires Ascending(s)
    ensures Ascending(Matching(s, query))
  {
    if |s| > 0 {
      MatchingAscending(s[1..], query);
      var rest := Matching(s[1..], query);
      forall j | 0 <= j < |rest| ensures Less(s[0].number, rest[j].number) {
        assert rest[j] in s[1..];
        var k :| 0 <= k < |s[1..]| && s[1..][k] == rest[j];
        assert s[k + 1] == rest[j];
      }
    }
  }

  /** The name search reports exactly the matching records of the ascending listing. */
  lemma {:induction false} SearchIsMatchingListing(t: Tree, query: string)
    ensures SearchByName(t, query) == Matching(InOrder(t), query)
  {
    match t
    case Leaf =>
    case Node(l, x, rt) =>
      SearchIsMatchingListing(l, query);
      SearchIsMatchingListing(rt, query);
      MatchingConcat(InOrder(l) + [x], InOrder(rt), query);
      MatchingConcat(InOrder(l), [x], query);
      assert Matching([x], query) == if NameMatches(x.name, query) then [x] else [];
  }

  /** Matches come out in ascending account-number order. */
  lemma SearchAscending(t: Tree, query: string)
    requires IsBst(t)
    ensures Ascending(SearchByName(t, query))
  {
    InOrderAscending(t);
    SearchIsMatchingListing(t, query);
    MatchingAscending(InOrder(t), query);
  }

  /** An empty query lists every account, in key order. */
  lemma {:induction false} EmptyQueryListsAll(t: Tree)
    ensures SearchByName(t, "") == InOrder(t)
  {
    match t
    case Leaf =>
    case Node(l, x, rt) =>
      EmptyQueryListsAll(l);
      EmptyQueryListsAll(rt);
      assert Lower("") == "";
      EmptyNeedleAlwaysContained(Lower(x.name));
  }

  /** Keys of a sequence of records. */
  function KeySet(rs: seq<Record>): set<string>
  {
    set i | 0 <= i < |rs| :: rs[i].number
  }

  /** The loader's repeated `root = insert(root, ...)`, in file order. */
  function InsertAll(t: Tree, rs: seq<Record>): (t': Tree)
    requires IsBst(t)
    ensures IsBst(t')
    decreases |rs|
  {
    if |rs| == 0 then t
    else
      InsertAll(Insert(t, rs[0]), rs[1..])
  }

  /** The earliest record in `rs` with key `k`. */
  function FirstWithKey(rs: seq<Record>, k: string): (r: Option<Record>)
    ensures r.Some? <==> k in KeySet(rs)
    ensures r.Some? ==> r.value in rs && r.value.number == k
  {
    if |rs| == 0 then None
    else if rs[0].number == k then Some(rs[0])
    else
      var rest := FirstWithKey(rs[1..], k);
      assert k in KeySet(rs) <==> k in KeySet(rs[1..]) by {
        if k in KeySet(rs) {
          var i :| 0 <= i < |rs| && rs[i].number == k;
          assert rs[1..][i - 1].number == k;
        }
        if k in KeySet(rs[1..]) {
          var i :| 0 <= i < |rs[1..]| && rs[1..][i].number == k;
          assert rs[i + 1].number == k;
        }
      }
      rest
  }

  /** After a run of inserts a key is found exactly when some insert used it,
      and what is found is the record the FIRST such insert carried. */
  lemma {:induction false} InsertAllFind(t: Tree, rs: seq<Record>, k: string)
    requires IsBst(t)
    ensures Find(InsertAll(t, rs), k) == if k in Keys(t) then Find(t, k) else FirstWithKey(rs, k)
    decreases |rs|
  {
    if |rs| > 0 {
      var t1 := Insert(t, rs[0]);
      InsertAllFind(t1, rs[1..], k);
      InsertThenFind(t, rs[0], k);
    }
  }

  /** Inserting a key above every stored key appends it to the traversal. */
  lemma {:induction false} InsertAboveAll(t: Tree, r: Record)
    requires IsBst(t)
    requires forall k | k in Keys(t) :: Less(k, r.number)
    ensures InOrder(Insert(t, r)) == InOrder(t) + [r]
  {
    match t
    case Leaf =>
    case Node(l, x, rt) =>
      LessAsymmetric(x.number, r.number);
      InsertAboveAll(rt, r);
  }

  lemma InsertAllStep(t: Tree, rs: seq<Record>)
    requires IsBst(t) && |rs| > 0
    ensures InsertAll(t, rs) == InsertAll(Insert(t, rs[0]), rs[1..])
  {
  }

  lemma AscendingTail(rs: seq<Record>)
    requires |rs| > 0 && Ascending(rs)
    ensures Ascending(rs[1..])
    ensures |rs| > 1 ==> Less(rs[0].number, rs[1].number)
  {
    var rest := rs[1..];
    forall i, j | 0 <= i < j < |rest| ensures Less(rest[i].number, rest[j].number) {
      assert rest[i] == rs[i + 1] && rest[j] == rs[j + 1];
    }
  }

  lemma StillBelow(t: Tree, r: Record, next: string)
    requires IsBst(t)
    requires forall k | k in Keys(t) :: Less(k, r.number)
    requires Less(r.number, next)
    ensures forall k | k in Keys(Insert(t, r)) :: Less(k, next)
  {
    forall k | k in Keys(Insert(t, r)) ensures Less(k, next) {
      if k != r.number {
        LessTransitive(k, r.number, next);
      }
    }
  }

  /** Moving the head of a non-empty run onto the prefix leaves the concatenation as it was. */
  lemma AppendHead(prefix: seq<Record>, rs: seq<Record>)
    requires |rs| > 0
    ensures prefix + [rs[0]] + rs[1..] == prefix + rs
  {
    assert rs == [rs[0]] + rs[1..];
  }

  /** Inserting an ascending run whose keys all exceed the stored ones appends it unchanged. */
  lemma {:induction false} InsertAllAscending(t: Tree, rs: seq<Record>)
    requires IsBst(t)
    requires Ascending(rs)
    requires |rs| > 0 ==> forall k | k in Keys(t) :: Less(k, rs[0].number)
    ensures InOrder(InsertAll(t, rs)) == InOrder(t) + rs
    decreases |rs|
  {
    if |rs| > 0 {
      var t1 := Insert(t, rs[0]);
      InsertAboveAll(t, rs[0]);
      AscendingTail(rs);
      if |rs| > 1 {
        StillBelow(t, rs[0], rs[1].number);
      }
      InsertAllAscending(t1, rs[1..]);
      InsertAllStep(t, rs);
      AppendHead(InOrder(t), rs);
    }
  }
}
