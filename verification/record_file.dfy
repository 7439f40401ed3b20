/** The records file Bank_Record.csv: one account per line, ten comma-joined
    fields, no quoting. A file is modelled as its sequence of lines. */
module RecordFile {
  import opened Outcome
  import opened Text
  import opened Decimal
  import opened Account
  import opened RecordStore

  const FieldCount: nat := 10

  /** Reference definition of the loader's tokenizer: the pieces between
      commas, from position `start` on. */
  function SplitFrom(line: string, start: nat): (tokens: seq<string>)
    requires start <= |line|
    ensures |tokens| >= 1
    decreases |line| - start
  {
    if IndexFrom(line, ',', start) == |line| then [line[start..]]
    else [line[start..IndexFrom(line, ',', start)]] + SplitFrom(line, IndexFrom(line, ',', start) + 1)
  }

  function Split(line: string): (tokens: seq<string>)
    ensures |tokens| >= 1
  {
    SplitFrom(line, 0)
  }

  /** A line holds one more token than it holds commas. */
  lemma {:induction false} SplitCount(line: string, start: nat)
    requires start <= |line|
    ensures |SplitFrom(line, start)| == CountFrom(line, ',', start) + 1
    decreases |line| - start
  {
    var e := IndexFrom(line, ',', start);
    IndexFromFirst(line, ',', start);
    CountFromSkip(line, ',', start, e);
    if e < |line| {
      SplitCount(line, e + 1);
    }
  }

  /** The writer's `a << "," << b << ...`. */
  function Join(fields: seq<string>): (line: string)
    requires |fields| >= 1
  {
    if |fields| == 1 then fields[0] else fields[0] + "," + Join(fields[1..])
  }

  /** One step of the reference tokenizer when a comma follows `start`. */
  lemma SplitAt(line: string, start: nat)
    requires start <= |line| && IndexFrom(line, ',', start) < |line|
    ensures SplitFrom(line, start) ==
      [line[start..IndexFrom(line, ',', start)]] + SplitFrom(line, IndexFrom(line, ',', start) + 1)
  {
  }

  /** The last token, when no comma follows `start`. */
  lemma SplitEnd(line: string, start: nat)
    requires start <= |line| && IndexFrom(line, ',', start) == |line|
    ensures SplitFrom(line, start) == [line[start..]]
  {
  }

  /** Where the first of the joined fields sits in the line. */
  lemma FieldAt(line: string, start: nat, fields: seq<string>)
    requires start <= |line| && |fields| >= 1
    requires line[start..] == Join(fields)
    ensures start + |fields[0]| <= |line|
    ensures line[start..start + |fields[0]|] == fields[0]
    ensures |fields| == 1 ==> start + |fields[0]| == |line|
    ensures |fields| > 1 ==>
      start + |fields[0]| < |line| &&
      line[start + |fields[0]|] == ',' &&
      line[start + |fields[0]| + 1..] == Join(fields[1..])
  {
    var f := fields[0];
    var tail := line[start..];
    if |fields| > 1 {
      assert tail == f + ("," + Join(fields[1..]));
      assert tail[..|f|] == f;
      assert tail[|f|] == ',';
      assert tail[|f| + 1..] == Join(fields[1..]);
    }
  }

  /** Comma-free fields joined from `start` on are split back into exactly
      the fields written. */
  lemma {:induction false} SplitJoinAt(line: string, start: nat, fields: seq<string>)
    requires start <= |line| && |fields| >= 1
    requires forall i | 0 <= i < |fields| :: ',' !in fields[i]
    requires line[start..] == Join(fields)
    ensures SplitFrom(line, start) == fields
    decreases |fields|
  {
    var f := fields[0];
    var e := start + |f|;
    FieldAt(line, start, fields);
    forall j | start <= j < e ensures line[j] != ',' {
      assert line[j] == f[j - start];
    }
    IndexFromSkip(line, ',', start, e);
    if |fields| == 1 {
      SplitEnd(line, start);
    } else {
      assert IndexFrom(line, ',', e) == e;
      SplitAt(line, start);
      SplitJoinAt(line, e + 1, fields[1..]);
      assert fields == [f] + fields[1..];
    }
  }

  lemma SplitJoin(fields: seq<string>)
    requires |fields| >= 1
    requires forall i | 0 <= i < |fields| :: ',' !in fields[i]
    ensures Split(Join(fields)) == fields
  {
    var line := Join(fields);
    assert line[0..] == line;
    SplitJoinAt(line, 0, fields);
  }

  /** The tokenizer of loadAccountsFromFile: find the next comma from `start`,
      cut, and after the last comma take the rest of the line. */
  method Tokenize(line: string) returns (tokens: seq<string>)
    ensures tokens == Split(line)
    ensures |tokens| == Count(line, ',') + 1
  {
    tokens := [];
    var start := 0;
    var end := IndexFrom(line, ',', 0);
    while end < |line|
      invariant 0 <= start <= end <= |line|
      invariant end == IndexFrom(line, ',', start)
      invariant tokens + SplitFrom(line, start) == Split(line)
      decreases |line| - start
    {
      tokens := tokens + [line[start..end]];
      start := end + 1;
      end := IndexFrom(line, ',', start);
    }
    tokens := tokens + [line[start..]];
    SplitCount(line, 0);
  }

  /** The ten fields in file order; the balance is written as decimal minor units. */
  function Fields(r: Record): (fields: seq<string>)
    ensures |fields| == FieldCount
    ensures fields[0] == r.number
  {
    [r.number, r.name, r.dob, r.age, r.address, r.phone, FormatInt(r.balance), r.accType, r.created, r.lastTx]
  }

  /** One line of saveAccountsToFileHelper. */
  function FormatRecord(r: Record): string
  {
    Join(Fields(r))
  }

  /** One line of loadAccountsFromFile: fewer than ten tokens and the line is
      skipped; tokens past the tenth are ignored. */
  function ParseRecord(line: string): (r: Option<Record>)
    ensures |Split(line)| < FieldCount ==> r.None?
    ensures |Split(line)| >= FieldCount && ParseInt(Split(line)[6]).Some? ==> r.Some?
    ensures r.Some? ==> ParseInt(Split(line)[6]) == Some(r.value.balance)
    ensures r.Some? ==> forall i | 0 <= i < FieldCount && i != 6 :: Fields(r.value)[i] == Split(line)[i]
  {
    var tokens := Split(line);
    if |tokens| < FieldCount then None
    else
      match ParseInt(tokens[6])
      case None => None
      case Some(balance) =>
        Some(Record(tokens[0], tokens[1], tokens[2], tokens[3], tokens[4], tokens[5],
                    balance, tokens[7], tokens[8], tokens[9]))
  }

  /** Text the flat format can carry: no field separator and no line break. */
  predicate CleanField(s: string)
  {
    ',' !in s && '\n' !in s
  }

  predicate Storable(r: Record)
  {
    forall i | 0 <= i < FieldCount && i != 6 :: CleanField(Fields(r)[i])
  }

  /** A record whose text fields are clean survives a write and a read unchanged. */
  lemma RecordRoundTrip(r: Record)
    requires Storable(r)
    ensures ParseRecord(FormatRecord(r)) == Some(r)
  {
    var fields := Fields(r);
    forall i | 0 <= i < |fields| ensures ',' !in fields[i] {
      if i != 6 {
        assert CleanField(fields[i]);
      }
    }
    SplitJoin(fields);
    IntRoundTrip(r.balance);
  }

  /** One step of the writer: the first field, a comma, then the rest. */
  lemma JoinCons(h: string, rest: seq<string>)
    requires |rest| >= 1
    ensures Join([h] + rest) == h + "," + Join(rest)
  {
    assert ([h] + rest)[1..] == rest;
  }

  /** A field holding one comma is written as two fields. */
  lemma JoinCommaField(x: string, y: string, rest: seq<string>)
    requires |rest| >= 1
    ensures Join([x + "," + y] + rest) == Join([x, y] + rest)
  {
    var yRest := [y] + rest;
    assert [x, y] + rest == [x] + yRest;
    JoinCons(x + "," + y, rest);
    JoinCons(y, rest);
    JoinCons(x, yRest);
    CommaAssoc(x, y, Join(rest));
  }

  lemma CommaAssoc(x: string, y: string, z: string)
    ensures (x + "," + y) + "," + z == x + "," + (y + "," + z)
  {
  }

  /** The writer does not escape commas, so a name holding one shifts every
      later field by one token when the line is read back: the date of birth
      takes the name's tail, the balance is read from the phone field and the
      account type from the balance text. The record does not come back. */
  lemma CommaNameShift(r: Record, a: string, b: string)
    requires r.name == a + "," + b && ',' !in a && ',' !in b
    requires forall i | 0 <= i < FieldCount && i != 1 :: ',' !in Fields(r)[i]
    ensures ParseRecord(FormatRecord(r)) ==
      match ParseInt(r.phone)
      case None => None
      case Some(v) => Some(Record(r.number, a, b, r.dob, r.age, r.address, v, FormatInt(r.balance), r.accType, r.created))
    ensures ParseRecord(FormatRecord(r)) != Some(r)
  {
    var f := Fields(r);
    var g := [r.number, a, b] + f[2..];
    assert f[1..] == [r.name] + f[2..];
    assert g[1..] == [a, b] + f[2..];
    JoinCommaField(a, b, f[2..]);
    assert Join(f) == Join(g);
    forall i | 0 <= i < |g| ensures ',' !in g[i] {
      if i >= 3 {
        assert g[i] == f[i - 1];
      }
    }
    SplitJoin(g);
    assert |a| < |r.name|;
  }

  /** Records of the lines that parse, in file order. */
  function ParseLines(lines: seq<string>): (rs: seq<Record>)
    ensures |rs| <= |lines|
  {
    if |lines| == 0 then []
    else
      (match ParseRecord(lines[0]) case Some(r) => [r] case None => []) + ParseLines(lines[1..])
  }

  /** loadAccountsFromFile: a missing file is an empty store; otherwise each
      parsed line is inserted in file order. */
  function LoadRecords(file: Option<seq<string>>): (t: Tree)
    ensures IsBst(t)
  {
    match file
    case None => Leaf
    case Some(lines) => InsertAll(Leaf, ParseLines(lines))
  }

  /** Loading: no file gives no accounts; otherwise each key finds the record
      of the first line that parses with that key, later duplicates ignored. */
  lemma LoadRecordsFind(file: Option<seq<string>>, k: string)
    ensures file.None? ==> LoadRecords(file) == Leaf
    ensures file.Some? ==> Find(LoadRecords(file), k) == FirstWithKey(ParseLines(file.value), k)
  {
    if file.Some? {
      InsertAllFind(Leaf, ParseLines(file.value), k);
    }
  }

  function FormatLines(rs: seq<Record>): (lines: seq<string>)
    ensures |lines| == |rs|
    ensures forall i | 0 <= i < |rs| :: lines[i] == FormatRecord(rs[i])
  {
    if |rs| == 0 then [] else [FormatRecord(rs[0])] + FormatLines(rs[1..])
  }

  /** saveAccountsToFile: the in-order dump, one line per account. */
  function SaveRecords(t: Tree): seq<string>
  {
    FormatLines(InOrder(t))
  }

  /** The first formatted line parses back to the first record. */
  lemma ParseFormatStep(rs: seq<Record>)
    requires |rs| > 0 && Storable(rs[0])
    ensures ParseLines(FormatLines(rs)) == [rs[0]] + ParseLines(FormatLines(rs[1..]))
  {
    var lines := FormatLines(rs);
    assert lines[0] == FormatRecord(rs[0]);
    assert lines[1..] == FormatLines(rs[1..]);
    RecordRoundTrip(rs[0]);
  }

  lemma {:induction false} ParseFormatLines(rs: seq<Record>)
    requires forall i | 0 <= i < |rs| :: Storable(rs[i])
    ensures ParseLines(FormatLines(rs)) == rs
  {
    if |rs| > 0 {
      ParseFormatStep(rs);
      ParseFormatLines(rs[1..]);
      assert rs == [rs[0]] + rs[1..];
    }
  }

  predicate AllStorable(t: Tree)
  {
    forall r | r in Records(t) :: Storable(r)
  }

  /** Saving then loading yields the same accounts in the same order, field for field. */
  lemma SaveLoadRoundTrip(t: Tree)
    requires IsBst(t) && AllStorable(t)
    ensures InOrder(LoadRecords(Some(SaveRecords(t)))) == InOrder(t)
  {
    var rs := InOrder(t);
    InOrderMembers(t);
    InOrderAscending(t);
    forall i | 0 <= i < |rs| ensures Storable(rs[i]) {
      assert rs[i] in Records(t);
    }
    ParseFormatLines(rs);
    InsertAllAscending(Leaf, rs);
  }

  /** save(load(save(S))) == save(S). */
  lemma SaveLoadSave(t: Tree)
    requires IsBst(t) && AllStorable(t)
    ensures SaveRecords(LoadRecords(Some(SaveRecords(t)))) == SaveRecords(t)
  {
    SaveLoadRoundTrip(t);
  }

  /** Two search trees with the same traversal answer every lookup alike. */
  lemma FindFollowsInOrder(t1: Tree, t2: Tree, k: string)
    requires IsBst(t1) && IsBst(t2)
    requires InOrder(t1) == InOrder(t2)
    ensures Find(t1, k) == Find(t2, k)
  {
    InOrderMembers(t1);
    InOrderMembers(t2);
    assert Records(t1) == Records(t2);
    KeysOfRecords(t1);
    KeysOfRecords(t2);
  }

  /** A store reloaded from its own save answers every lookup as before. */
  lemma SaveLoadFind(t: Tree, k: string)
    requires IsBst(t) && AllStorable(t)
    ensures Find(LoadRecords(Some(SaveRecords(t))), k) == Find(t, k)
  {
    SaveLoadRoundTrip(t);
    FindFollowsInOrder(LoadRecords(Some(SaveRecords(t))), t, k);
  }
}
