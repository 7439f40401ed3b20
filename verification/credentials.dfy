/** The two credential stores (customer accounts and employees): maps from id
    to secret, and their files Account_info.csv and Employee_info.csv, one
    `id,secret` line per entry. */
module Credentials {
  import opened Outcome
  import opened Text
  import opened KeyOrder

  type CredentialMap = map<string, string>

  /** Seeded into the employee store when its file does not exist. */
  const DefaultAdminId: string := "admin"
  const DefaultAdminSecret: string := "admin123"

  /** The login check: the id is known and the secret is exactly the stored one.
      An unknown id and a wrong secret give the same answer. */
  predicate Verify(m: CredentialMap, id: string, secret: string)
  {
    id in m && m[id] == secret
  }

  /** Registering a new id (adding an employee): an id already present is refused. */
  function AddNew(m: CredentialMap, id: string, secret: string): (r: Result<CredentialMap>)
    ensures r.Err? <==> id in m
    ensures r.Err? ==> r.error == DuplicateKey
    ensures r.Ok? ==> r.value.Keys == m.Keys + {id}
    ensures r.Ok? ==> Verify(r.value, id, secret)
    ensures r.Ok? ==> forall k | k in m :: r.value[k] == m[k]
  {
    if id in m then Err(DuplicateKey) else Ok(m[id := secret])
  }

  /** A stored upsert (password change, account creation) makes the new secret
      the only one accepted for that id and leaves every other id as it was. */
  lemma UpsertThenVerify(m: CredentialMap, id: string, secret: string, other: string, guess: string)
    ensures Verify(m[id := secret], id, guess) <==> guess == secret
    ensures other != id ==> (Verify(m[id := secret], other, guess) <==> Verify(m, other, guess))
  {
  }

  /** A credential line splits at its FIRST comma: the id is the text before it,
      the secret everything after it (commas included); a line without a comma
      carries no entry. */
  function ParseLine(line: string): (entry: Option<(string, string)>)
    ensures entry.Some? <==> ',' in line
    ensures entry.Some? ==> ',' !in entry.value.0 && entry.value.0 + "," + entry.value.1 == line
  {
    IndexOfFirst(line, ',');
    var pos := IndexOf(line, ',');
    if pos == |line| then None else Some((line[..pos], line[pos + 1..]))
  }

  /** The line saveAllCredentials writes for one entry. */
  function FormatLine(id: string, secret: string): string
  {
    id + "," + secret
  }

  lemma LineRoundTrip(id: string, secret: string)
    requires ',' !in id
    ensures ParseLine(FormatLine(id, secret)) == Some((id, secret))
  {
    FirstCommaAfter(id, secret);
    var line := FormatLine(id, secret);
    assert line[..|id|] == id;
    assert line[|id| + 1..] == secret;
  }

  /** The loading loop of loadAllCredentials, over lines in file order, upserting
      into the store it is given. */
  function LoadInto(m: CredentialMap, lines: seq<string>): CredentialMap
  {
    if |lines| == 0 then m
    else
      var before := LoadInto(m, lines[..|lines| - 1]);
      match ParseLine(lines[|lines| - 1])
      case Some((id, secret)) => before[id := secret]
      case None => before
  }

  lemma LoadAppend(m: CredentialMap, lines: seq<string>, line: string)
    ensures LoadInto(m, lines + [line]) ==
              match ParseLine(line)
              case Some((id, secret)) => LoadInto(m, lines)[id := secret]
              case None => LoadInto(m, lines)
  {
    assert (lines + [line])[..|lines|] == lines;
  }

  /** A line without a comma changes nothing. */
  lemma CommaFreeLineIgnored(m: CredentialMap, lines: seq<string>, line: string)
    requires ',' !in line
    ensures LoadInto(m, lines + [line]) == LoadInto(m, lines)
  {
    LoadAppend(m, lines, line);
  }

  /** The last line naming an id decides its secret. */
  lemma {:induction false} LoadLastWins(m: CredentialMap, lines: seq<string>, i: int, id: string, secret: string)
    requires 0 <= i < |lines|
    requires ParseLine(lines[i]) == Some((id, secret))
    requires forall j | i < j < |lines| :: ParseLine(lines[j]).None? || ParseLine(lines[j]).value.0 != id
    ensures id in LoadInto(m, lines) && LoadInto(m, lines)[id] == secret
    decreases |lines|
  {
    var n := |lines| - 1;
    var front := lines[..n];
    assert lines == front + [lines[n]];
    LoadAppend(m, front, lines[n]);
    if i < n {
      LoadLastWins(m, front, i, id, secret);
    }
  }

  /** An id no line names keeps whatever the store held before loading. */
  lemma {:induction false} LoadUntouched(m: CredentialMap, lines: seq<string>, id: string)
    requires forall j | 0 <= j < |lines| :: ParseLine(lines[j]).None? || ParseLine(lines[j]).value.0 != id
    ensures id in LoadInto(m, lines) <==> id in m
    ensures id in m ==> LoadInto(m, lines)[id] == m[id]
    decreases |lines|
  {
    if |lines| > 0 {
      var n := |lines| - 1;
      var front := lines[..n];
      assert lines == front + [lines[n]];
      LoadAppend(m, front, lines[n]);
      LoadUntouched(m, front, id);
    }
  }

  /** The part of `m` on the ids in `done`. */
  function Restrict(m: CredentialMap, done: set<string>): (r: CredentialMap)
    ensures r.Keys == m.Keys * done
  {
    map id | id in m && id in done :: m[id]
  }

  predicate CommaFreeIds(m: CredentialMap)
  {
    forall id | id in m :: ',' !in id
  }

  /** Each emitted line is the formatted entry of its id, which is no longer pending. */
  predicate Emitted(m: CredentialMap, ids: seq<string>, lines: seq<string>, rest: set<string>)
  {
    |ids| == |lines| &&
    forall i | 0 <= i < |ids| :: ids[i] in m && ids[i] !in rest && lines[i] == FormatLine(ids[i], m[ids[i]])
  }

  /** Emitted ids ascend and all come before every pending id. */
  predicate Ordered(ids: seq<string>, rest: set<string>)
  {
    StrictlyAscending(ids) &&
    forall i, k | 0 <= i < |ids| && k in rest :: Less(ids[i], k)
  }

  /** Loading what has been written so far rebuilds the entries already done. */
  predicate Reloads(m: CredentialMap, lines: seq<string>, rest: set<string>)
  {
    CommaFreeIds(m) ==> LoadInto(map[], lines) == Restrict(m, m.Keys - rest)
  }

  /** What the save loop has written after emitting `ids` and keeping `rest` for later. */
  predicate SaveProgress(m: CredentialMap, ids: seq<string>, lines: seq<string>, rest: set<string>)
  {
    && rest <= m.Keys
    && |ids| + |rest| == |m|
    && Emitted(m, ids, lines, rest)
    && (forall id | id in m && id !in rest :: id in ids)
    && Ordered(ids, rest)
    && Reloads(m, lines, rest)
  }

  lemma SaveStart(m: CredentialMap)
    ensures SaveProgress(m, [], [], m.Keys)
  {
    assert Restrict(m, {}) == map[];
  }

  lemma EmittedStep(m: CredentialMap, ids: seq<string>, lines: seq<string>, rest: set<string>, k: string)
    requires Emitted(m, ids, lines, rest) && k in m
    ensures Emitted(m, ids + [k], lines + [FormatLine(k, m[k])], rest - {k})
  {
    var ids', lines' := ids + [k], lines + [FormatLine(k, m[k])];
    forall i | 0 <= i < |ids'| ensures ids'[i] in m && ids'[i] !in rest - {k} && lines'[i] == FormatLine(ids'[i], m[ids'[i]]) {
      if i < |ids| {
        assert ids'[i] == ids[i] && lines'[i] == lines[i];
      }
    }
  }

  lemma OrderedStep(ids: seq<string>, rest: set<string>, k: string)
    requires Ordered(ids, rest)
    requires k in rest && forall x | x in rest && x != k :: Less(k, x)
    ensures Ordered(ids + [k], rest - {k})
  {
    var ids' := ids + [k];
    forall i, j | 0 <= i < j < |ids'| ensures Less(ids'[i], ids'[j]) {
      assert ids'[i] == ids[i];
      if j < |ids| {
        assert ids'[j] == ids[j];
      }
    }
    forall i, x | 0 <= i < |ids'| && x in rest - {k} ensures Less(ids'[i], x) {
      if i < |ids| {
        assert ids'[i] == ids[i];
      }
    }
  }

  lemma ReloadsStep(m: CredentialMap, lines: seq<string>, rest: set<string>, k: string)
    requires Reloads(m, lines, rest) && k in rest && rest <= m.Keys
    ensures Reloads(m, lines + [FormatLine(k, m[k])], rest - {k})
  {
    if CommaFreeIds(m) {
      var line := FormatLine(k, m[k]);
      LoadAppend(map[], lines, line);
      LineRoundTrip(k, m[k]);
      assert Restrict(m, m.Keys - rest)[k := m[k]] == Restrict(m, m.Keys - (rest - {k}));
    }
  }

  /** Emitting the least remaining id keeps the save loop's progress facts. */
  lemma SaveStep(m: CredentialMap, ids: seq<string>, lines: seq<string>, rest: set<string>, k: string)
    requires SaveProgress(m, ids, lines, rest)
    requires k in rest && forall x | x in rest && x != k :: Less(k, x)
    ensures SaveProgress(m, ids + [k], lines + [FormatLine(k, m[k])], rest - {k})
  {
    assert |rest - {k}| == |rest| - 1;
    EmittedStep(m, ids, lines, rest, k);
    OrderedStep(ids, rest, k);
    ReloadsStep(m, lines, rest, k);
  }

  lemma RestrictAll(m: CredentialMap)
    ensures Restrict(m, m.Keys - {}) == m
  {
    assert m.Keys - {} == m.Keys;
  }

  lemma SaveDone(m: CredentialMap, ids: seq<string>, lines: seq<string>)
    requires SaveProgress(m, ids, lines, {})
    ensures |ids| == |lines| == |m|
    ensures forall i | 0 <= i < |ids| :: ids[i] in m && lines[i] == FormatLine(ids[i], m[ids[i]])
    ensures forall id | id in m :: id in ids
    ensures StrictlyAscending(ids)
    ensures CommaFreeIds(m) ==> LoadInto(map[], lines) == m
  {
    RestrictAll(m);
  }

  /** saveAllCredentials for one store: std::map iteration, so ids ascend. When no
      id contains a comma, loading the lines into an empty store rebuilds `m`. */
  method Save(m: CredentialMap) returns (ids: seq<string>, lines: seq<string>)
    ensures |ids| == |lines| == |m|
    ensures forall i | 0 <= i < |ids| :: ids[i] in m && lines[i] == FormatLine(ids[i], m[ids[i]])
    ensures forall id | id in m :: id in ids
    ensures StrictlyAscending(ids)
    ensures CommaFreeIds(m) ==> LoadInto(map[], lines) == m
  {
    ids := [];
    lines := [];
    var rest := m.Keys;
    SaveStart(m);
    while rest != {}
      invariant SaveProgress(m, ids, lines, rest)
      decreases |rest|
    {
      MinimumExists(rest);
      var k :| k in rest && forall x | x in rest && x != k :: Less(k, x);
      SaveStep(m, ids, lines, rest, k);
      ids := ids + [k];
      lines := lines + [FormatLine(k, m[k])];
      rest := rest - {k};
    }
    SaveDone(m, ids, lines);
  }

  /** loadAllCredentials for the employee store: a missing file seeds the default
      administrator, and the flag asks the caller to write both files at once. */
  function LoadEmployees(m: CredentialMap, file: Option<seq<string>>): (r: (CredentialMap, bool))
    ensures r.1 <==> file.None?
    ensures file.None? ==> Verify(r.0, DefaultAdminId, DefaultAdminSecret)
    ensures file.None? ==> r.0.Keys == m.Keys + {DefaultAdminId}
    ensures file.None? ==> forall id | id in m && id != DefaultAdminId :: id in r.0 && r.0[id] == m[id]
    ensures file.Some? ==> r.0 == LoadInto(m, file.value)
  {
    match file
    case None => (m[DefaultAdminId := DefaultAdminSecret], true)
    case Some(lines) => (LoadInto(m, lines), false)
  }

  /** loadAllCredentials for the customer store: a missing file leaves it as it is. */
  function LoadCustomers(m: CredentialMap, file: Option<seq<string>>): (r: CredentialMap)
    ensures file.None? ==> r == m
    ensures file.Some? ==> r == LoadInto(m, file.value)
  {
    match file
    case None => m
    case Some(lines) => LoadInto(m, lines)
  }
}
