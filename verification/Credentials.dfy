/** The credential store: an in-memory table of verifiers and the file that must always
    decode to it. Hashing is a parameter; disk writes succeed; token IDs are fresh. */
module Credentials {
  import opened LuaValues
  import opened OrderedMaps

  datatype Grant = Grant(
    tokenId: string, saveId: string, playerId: string, expiresAt: Option<int>, revokedAt: Option<int>, details: string)

  datatype Credential = Credential(secretHash: string, grant: Grant)

  type Table = seq<Pair<string, Credential>>

  datatype StoredCredential = StoredCredential(tokenId: string, secretHash: string, grant: Grant)

  /** What reading the verifier file can give. */
  datatype File = Missing | Unreadable | Blank | Malformed | Verifiers(entries: seq<StoredCredential>)

  datatype State = State(table: Table, file: File)

  /** A bearer token in its exact form. */
  datatype Token = Token(tokenId: string, secret: string)

  type Hash = string -> string

  // --------------------------------------------------------------------------- file and table

  function EncodedFile(table: Table): File {
    Verifiers(seq(|table|, i requires 0 <= i < |table| =>
      StoredCredential(table[i].key, table[i].value.secretHash, table[i].value.grant)))
  }

  function DecodedEntries(entries: seq<StoredCredential>): Table {
    if entries == [] then []
    else
      var last := entries[|entries| - 1];
      Set(DecodedEntries(entries[..|entries| - 1]), last.tokenId, Credential(last.secretHash, last.grant))
  }

  /** A missing, blank or malformed file starts an empty store. */
  function Decoded(file: File): Table {
    if file.Verifiers? then DecodedEntries(file.entries) else []
  }

  lemma {:induction false} SetAppends(table: Table, key: string, value: Credential)
    requires forall i | 0 <= i < |table| :: table[i].key != key
    ensures Set(table, key, value) == table + [Pair(key, value)]
  {
    if table != [] {
      SetAppends(table[1..], key, value);
      assert table == [table[0]] + table[1..];
    }
  }

  lemma {:induction false} DecodeInvertsEncode(table: Table)
    requires Unique(table)
    ensures Decoded(EncodedFile(table)) == table
  {
    if table != [] {
      var init, last := table[..|table| - 1], table[|table| - 1];
      DecodeInvertsEncode(init);
      assert EncodedFile(table).entries[..|table| - 1] == EncodedFile(init).entries;
      SetAppends(init, last.key, last.value);
      assert table == init + [last];
    }
  }

  // --------------------------------------------------------------------------------- removals

  /** What a removal loop looks for. */
  datatype Criterion = ExpiredBy(now: int) | OwnedBy(saveId: string, playerId: string)

  predicate Expired(grant: Grant, now: int) {
    grant.expiresAt.Some? && grant.expiresAt.value <= now
  }

  predicate Matches(c: Credential, criterion: Criterion) {
    match criterion
    case ExpiredBy(now) => Expired(c.grant, now)
    case OwnedBy(saveId, playerId) => c.grant.saveId == saveId && c.grant.playerId == playerId
  }

  function Remaining(table: Table, criterion: Criterion): Table {
    if table == [] then []
    else if Matches(table[0].value, criterion) then Remaining(table[1..], criterion)
    else [table[0]] + Remaining(table[1..], criterion)
  }

  lemma {:induction false} RemainingFacts(table: Table, criterion: Criterion)
    requires Unique(table)
    ensures Unique(Remaining(table, criterion))
    ensures forall p :: p in Remaining(table, criterion) <==> p in table && !Matches(p.value, criterion)
  {
    if table != [] {
      assert table == [table[0]] + table[1..];
      assert forall i | 0 <= i < |table[1..]| :: table[1..][i] == table[i + 1];
      RemainingFacts(table[1..], criterion);
      var rest := Remaining(table[1..], criterion);
      forall i | 0 <= i < |rest| ensures rest[i].key != table[0].key {
        assert rest[i] in rest && rest[i] in table[1..];
      }
    }
  }

  /** One round of a removal loop at position `i`. */
  lemma RemainingStep(table: Table, i: nat, criterion: Criterion)
    requires i < |table|
    ensures Matches(table[i].value, criterion) ==>
              var cut := table[..i] + table[i + 1..];
              cut[..i] + Remaining(cut[i..], criterion) == table[..i] + Remaining(table[i..], criterion)
    ensures !Matches(table[i].value, criterion) ==>
              table[..i + 1] + Remaining(table[i + 1..], criterion) == table[..i] + Remaining(table[i..], criterion)
  {
    assert table[i..][1..] == table[i + 1..];
    if Matches(table[i].value, criterion) {
      var cut := table[..i] + table[i + 1..];
      assert cut[..i] == table[..i] && cut[i..] == table[i + 1..];
    } else {
      assert table[..i + 1] == table[..i] + [table[i]];
    }
  }

  // ------------------------------------------------------------------------------------ calls

  datatype Call =
    | Mint(grant: Grant, token: Token, now: int)
    | Verify(presented: Option<Token>, now: int)
    | Revoke(tokenId: string)
    | RevokePlayer(saveId: string, playerId: string)
    | Sweep(now: int)
    | Restart(now: int)

  function Holds(table: Table): State {
    State(table, EncodedFile(table))
  }

  function WithTable(s: State, table: Table): State {
    if table == s.table then s else Holds(table)
  }

  function Minted(s: State, grant: Grant, token: Token, now: int, hash: Hash): State {
    var cleared := Remaining(Remaining(s.table, ExpiredBy(now)), OwnedBy(grant.saveId, grant.playerId));
    Holds(Set(cleared, token.tokenId, Credential(hash(token.secret), grant.(tokenId := token.tokenId))))
  }

  /** The credential a token names with the right secret. */
  function Matching(table: Table, token: Option<Token>, hash: Hash): Option<Credential> {
    if token.None? then None
    else
      var stored := Lookup(table, token.value.tokenId);
      if stored.Some? && stored.value.secretHash == hash(token.value.secret) then stored else None
  }

  function VerifyAnswer(table: Table, token: Option<Token>, now: int, hash: Hash): Option<Grant> {
    var c := Matching(table, token, hash);
    if c.None? || c.value.grant.revokedAt.Some? || Expired(c.value.grant, now) then None else Some(c.value.grant)
  }

  function Verified(s: State, token: Option<Token>, now: int, hash: Hash): State {
    var c := Matching(s.table, token, hash);
    if c.Some? && c.value.grant.revokedAt.None? && Expired(c.value.grant, now)
    then Holds(Delete(s.table, token.value.tokenId))
    else s
  }

  function After(s: State, call: Call, hash: Hash): State {
    match call
    case Mint(grant, token, now) => Minted(s, grant, token, now, hash)
    case Verify(token, now) => Verified(s, token, now, hash)
    case Revoke(tokenId) => WithTable(s, Delete(s.table, tokenId))
    case RevokePlayer(saveId, playerId) => WithTable(s, Remaining(s.table, OwnedBy(saveId, playerId)))
    case Sweep(now) => WithTable(s, Remaining(s.table, ExpiredBy(now)))
    case Restart(now) => WithTable(s.(table := Decoded(s.file)), Remaining(Decoded(s.file), ExpiredBy(now)))
  }

  ghost function Run(s: State, calls: seq<Call>, hash: Hash): State
    decreases calls
  {
    if calls == [] then s else Run(After(s, calls[0], hash), calls[1..], hash)
  }

  // ------------------------------------------------------------------------------ invariants

  predicate SamePlayer(a: Grant, b: Grant) {
    a.saveId == b.saveId && a.playerId == b.playerId
  }

  ghost predicate OneEach(table: Table) {
    forall i, j | 0 <= i < j < |table| ::
      !SamePlayer(table[i].value.grant, table[j].value.grant)
  }

  /** One credential an identifier and one a player, each grant naming its own
      identifier, and a file that decodes to exactly this table. */
  ghost predicate Sound(s: State) {
    && Unique(s.table)
    && OneEach(s.table)
    && (forall p | p in s.table :: p.value.grant.tokenId == p.key)
    && Decoded(s.file) == s.table
  }

  lemma {:induction false} RemainingOneEach(table: Table, criterion: Criterion)
    requires OneEach(table)
    ensures OneEach(Remaining(table, criterion))
    ensures forall p | p in Remaining(table, criterion) :: p in table
  {
    if table != [] {
      assert table == [table[0]] + table[1..];
      assert forall i | 0 <= i < |table[1..]| :: table[1..][i] == table[i + 1];
      RemainingOneEach(table[1..], criterion);
      var rest := Remaining(table[1..], criterion);
      forall i | 0 <= i < |rest|
        ensures !SamePlayer(rest[i].value.grant, table[0].value.grant)
      {
        assert rest[i] in rest && rest[i] in table[1..];
      }
    }
  }

  lemma RemovalKeepsSound(s: State, criterion: Criterion)
    requires Sound(s)
    ensures Sound(WithTable(s, Remaining(s.table, criterion)))
  {
    RemainingFacts(s.table, criterion);
    RemainingOneEach(s.table, criterion);
    DecodeInvertsEncode(Remaining(s.table, criterion));
  }

  lemma {:induction false} DeleteKeepsOrder(table: Table, key: string)
    requires OneEach(table)
    ensures OneEach(Delete(table, key)) && forall p | p in Delete(table, key) :: p in table
  {
    if table != [] {
      assert table == [table[0]] + table[1..];
      assert forall i | 0 <= i < |table[1..]| :: table[1..][i] == table[i + 1];
      if table[0].key != key {
        DeleteKeepsOrder(table[1..], key);
        var rest := Delete(table[1..], key);
        forall i | 0 <= i < |rest|
          ensures !SamePlayer(rest[i].value.grant, table[0].value.grant)
        {
          assert rest[i] in rest && rest[i] in table[1..];
        }
      }
    }
  }

  lemma DeleteKeepsSound(s: State, key: string)
    requires Sound(s)
    ensures Sound(Holds(Delete(s.table, key))) && Sound(WithTable(s, Delete(s.table, key)))
  {
    DeleteFacts(s.table, key);
    DeleteKeepsOrder(s.table, key);
    DecodeInvertsEncode(Delete(s.table, key));
  }

  /** What a mint clears away first. */
  lemma ClearedFacts(table: Table, grant: Grant, now: int)
    requires Unique(table) && OneEach(table)
    ensures var cleared := Remaining(Remaining(table, ExpiredBy(now)), OwnedBy(grant.saveId, grant.playerId));
            && Unique(cleared) && OneEach(cleared)
            && forall p | p in cleared :: p in table && !SamePlayer(p.value.grant, grant)
  {
    var live := Remaining(table, ExpiredBy(now));
    RemainingFacts(table, ExpiredBy(now));
    RemainingOneEach(table, ExpiredBy(now));
    RemainingFacts(live, OwnedBy(grant.saveId, grant.playerId));
    RemainingOneEach(live, OwnedBy(grant.saveId, grant.playerId));
  }

  lemma AppendKeepsOrder(table: Table, p: Pair<string, Credential>)
    requires Unique(table) && OneEach(table)
    requires forall q | q in table :: q.key != p.key && !SamePlayer(q.value.grant, p.value.grant)
    ensures Set(table, p.key, p.value) == table + [p] && Unique(table + [p]) && OneEach(table + [p])
  {
    assert forall i | 0 <= i < |table| :: table[i] in table;
    SetAppends(table, p.key, p.value);
  }

  lemma MintKeepsSound(s: State, grant: Grant, token: Token, now: int, hash: Hash)
    requires Sound(s) && forall p | p in s.table :: p.key != token.tokenId
    ensures Sound(Minted(s, grant, token, now, hash))
  {
    var cleared := Remaining(Remaining(s.table, ExpiredBy(now)), OwnedBy(grant.saveId, grant.playerId));
    ClearedFacts(s.table, grant, now);
    AppendKeepsOrder(cleared, Pair(token.tokenId, Credential(hash(token.secret), grant.(tokenId := token.tokenId))));
    DecodeInvertsEncode(Minted(s, grant, token, now, hash).table);
  }

  /** Token IDs come from a generator that never repeats one still stored. */
  ghost predicate FreshMint(s: State, call: Call) {
    call.Mint? ==> forall p | p in s.table :: p.key != call.token.tokenId
  }

  /** Every call, a restart included, keeps the store sound: the file decodes to the table. */
  lemma CallKeepsSound(s: State, call: Call, hash: Hash)
    requires Sound(s) && FreshMint(s, call)
    ensures Sound(After(s, call, hash))
  {
    match call
    case Mint(grant, token, now) => MintKeepsSound(s, grant, token, now, hash);
    case Verify(token, now) => if token.Some? { DeleteKeepsSound(s, token.value.tokenId); }
    case Revoke(tokenId) => DeleteKeepsSound(s, tokenId);
    case RevokePlayer(saveId, playerId) => RemovalKeepsSound(s, OwnedBy(saveId, playerId));
    case Sweep(now) => RemovalKeepsSound(s, ExpiredBy(now));
    case Restart(now) => RemovalKeepsSound(s, ExpiredBy(now));
  }

  /** A store rebuilt from the file is the old one less its expired grants, in order. */
  lemma RestartIsSweep(s: State, now: int, hash: Hash)
    requires Sound(s)
    ensures After(s, Restart(now), hash) == After(s, Sweep(now), hash)
    ensures forall p :: p in After(s, Restart(now), hash).table <==> p in s.table && !Expired(p.value.grant, now)
  {
    RemainingFacts(s.table, ExpiredBy(now));
  }

  /** The grant has an expiry and the clock has reached it. */
  ghost predicate OutOfDate(grant: Grant, now: int) {
    grant.expiresAt.Some? && grant.expiresAt.value <= now
  }

  /** Which credentials of the table one call takes out. */
  ghost predicate Removes(call: Call, p: Pair<string, Credential>, hash: Hash) {
    match call
    case Mint(grant, _, now) => OutOfDate(p.value.grant, now) || SamePlayer(p.value.grant, grant)
    case Verify(token, now) =>
      && token.Some? && p.key == token.value.tokenId && p.value.secretHash == hash(token.value.secret)
      && p.value.grant.revokedAt.None? && OutOfDate(p.value.grant, now)
    case Revoke(tokenId) => p.key == tokenId
    case RevokePlayer(saveId, playerId) => p.value.grant.saveId == saveId && p.value.grant.playerId == playerId
    case Sweep(now) => OutOfDate(p.value.grant, now)
    case Restart(now) => OutOfDate(p.value.grant, now)
  }

  /** After any call the table holds what it held less what the call removes, and what a mint
      has minted: no other player's and no other token's credential is touched. */
  lemma CallOutcome(s: State, call: Call, hash: Hash, p: Pair<string, Credential>)
    requires Sound(s) && FreshMint(s, call)
    ensures p in After(s, call, hash).table <==>
            || (p in s.table && !Removes(call, p, hash))
            || (call.Mint? && p == Pair(call.token.tokenId, Credential(hash(call.token.secret), call.grant.(tokenId := call.token.tokenId))))
  {
    match call
    case Mint(grant, token, now) =>
      MintOutcome(s, grant, token, now, hash, p);
    case Verify(token, now) =>
      if token.Some? {
        DeleteFacts(s.table, token.value.tokenId);
        LookupFinds(s.table, token.value.tokenId);
      }
    case Revoke(tokenId) => DeleteFacts(s.table, tokenId);
    case RevokePlayer(saveId, playerId) => RemainingFacts(s.table, OwnedBy(saveId, playerId));
    case Sweep(now) => RemainingFacts(s.table, ExpiredBy(now));
    case Restart(now) => RemainingFacts(s.table, ExpiredBy(now));
  }

  lemma MintOutcome(s: State, grant: Grant, token: Token, now: int, hash: Hash, p: Pair<string, Credential>)
    requires Sound(s) && forall q | q in s.table :: q.key != token.tokenId
    ensures p in Minted(s, grant, token, now, hash).table <==>
            || (p in s.table && !OutOfDate(p.value.grant, now) && !SamePlayer(p.value.grant, grant))
            || p == Pair(token.tokenId, Credential(hash(token.secret), grant.(tokenId := token.tokenId)))
  {
    var live := Remaining(s.table, ExpiredBy(now));
    RemainingFacts(s.table, ExpiredBy(now));
    RemainingFacts(live, OwnedBy(grant.saveId, grant.playerId));
    SetMembers(Remaining(live, OwnedBy(grant.saveId, grant.playerId)), token.tokenId,
               Credential(hash(token.secret), grant.(tokenId := token.tokenId)));
  }

  /** Every mint of the run uses an identifier never seen before in it. */
  ghost predicate FreshRun(s: State, calls: seq<Call>, hash: Hash)
    decreases calls
  {
    calls == [] || (FreshMint(s, calls[0]) && FreshRun(After(s, calls[0], hash), calls[1..], hash))
  }

  lemma {:induction false} RunKeepsSound(s: State, calls: seq<Call>, hash: Hash)
    requires Sound(s) && FreshRun(s, calls, hash)
    ensures Sound(Run(s, calls, hash))
    decreases calls
  {
    if calls != [] {
      CallKeepsSound(s, calls[0], hash);
      RunKeepsSound(After(s, calls[0], hash), calls[1..], hash);
    }
  }

  // ------------------------------------------------------------------------------- any file

  function PairOf(e: StoredCredential): Pair<string, Credential> {
    Pair(e.tokenId, Credential(e.secretHash, e.grant))
  }

  /** The entry of a file that counts: a later one of its identifier would replace it. */
  ghost predicate LastOfItsId(entries: seq<StoredCredential>, i: nat)
    requires i < |entries|
  {
    forall j | i < j < |entries| :: entries[j].tokenId != entries[i].tokenId
  }

  ghost predicate LiveEntry(entries: seq<StoredCredential>, i: nat, now: int)
    requires i < |entries|
  {
    LastOfItsId(entries, i) && !OutOfDate(entries[i].grant, now)
  }

  /** Every live entry's grant names that entry's own identifier. */
  ghost predicate OwnGrants(entries: seq<StoredCredential>, now: int) {
    forall i | 0 <= i < |entries| && LiveEntry(entries, i, now) :: entries[i].grant.tokenId == entries[i].tokenId
  }

  /** No two live entries belong to one player. */
  ghost predicate OneEachPlayer(entries: seq<StoredCredential>, now: int) {
    forall i, j | 0 <= i < j < |entries| && LiveEntry(entries, i, now) && LiveEntry(entries, j, now) ::
      !SamePlayer(entries[i].grant, entries[j].grant)
  }

  lemma {:induction false} DecodedIsUnique(entries: seq<StoredCredential>)
    ensures Unique(DecodedEntries(entries))
  {
    if entries != [] {
      var init, last := entries[..|entries| - 1], entries[|entries| - 1];
      DecodedIsUnique(init);
      SetUnique(DecodedEntries(init), last.tokenId, Credential(last.secretHash, last.grant));
    }
  }

  /** Loading keeps the last entry of each identifier, and nothing else. */
  lemma {:induction false} DecodedMembers(entries: seq<StoredCredential>, p: Pair<string, Credential>)
    ensures p in DecodedEntries(entries)
            <==> exists i :: 0 <= i < |entries| && LastOfItsId(entries, i) && PairOf(entries[i]) == p
  {
    if entries != [] {
      var n := |entries| - 1;
      var init, last := entries[..n], entries[n];
      DecodedIsUnique(init);
      DecodedMembers(init, p);
      SetMembers(DecodedEntries(init), last.tokenId, Credential(last.secretHash, last.grant));
      assert LastOfItsId(entries, n);
      forall i: nat | i < n ensures LastOfItsId(entries, i) <==> LastOfItsId(init, i) && entries[i].tokenId != last.tokenId {
        LastInPrefix(entries, i);
      }
    }
  }

  lemma LastInPrefix(entries: seq<StoredCredential>, i: nat)
    requires i < |entries| - 1
    ensures LastOfItsId(entries, i)
            <==> LastOfItsId(entries[..|entries| - 1], i) && entries[i].tokenId != entries[|entries| - 1].tokenId
  {
    var init := entries[..|entries| - 1];
    assert forall j | 0 <= j < |init| :: init[j] == entries[j];
  }

  /** What a load leaves in the store. */
  function Loaded(entries: seq<StoredCredential>, now: int): Table {
    Remaining(DecodedEntries(entries), ExpiredBy(now))
  }

  lemma LoadedMembers(entries: seq<StoredCredential>, now: int, p: Pair<string, Credential>)
    ensures Unique(Loaded(entries, now))
    ensures p in Loaded(entries, now)
            <==> exists i :: 0 <= i < |entries| && LiveEntry(entries, i, now) && PairOf(entries[i]) == p
  {
    DecodedIsUnique(entries);
    DecodedMembers(entries, p);
    RemainingFacts(DecodedEntries(entries), ExpiredBy(now));
    if p in Loaded(entries, now) {
      var i :| 0 <= i < |entries| && LastOfItsId(entries, i) && PairOf(entries[i]) == p;
      assert LiveEntry(entries, i, now);
    }
  }

  lemma OwnGrantsExactly(entries: seq<StoredCredential>, now: int)
    ensures OwnGrants(entries, now) <==> forall p | p in Loaded(entries, now) :: p.value.grant.tokenId == p.key
  {
    forall p | p in Loaded(entries, now) && OwnGrants(entries, now) ensures p.value.grant.tokenId == p.key {
      LoadedMembers(entries, now, p);
    }
    forall i | 0 <= i < |entries| && LiveEntry(entries, i, now) ensures PairOf(entries[i]) in Loaded(entries, now) {
      LoadedMembers(entries, now, PairOf(entries[i]));
    }
  }

  lemma OneEachExactly(entries: seq<StoredCredential>, now: int)
    ensures OneEachPlayer(entries, now) <==> OneEach(Loaded(entries, now))
  {
    var table := Loaded(entries, now);
    if OneEachPlayer(entries, now) {
      forall a, b | 0 <= a < b < |table| ensures !SamePlayer(table[a].value.grant, table[b].value.grant) {
        LoadedMembers(entries, now, table[a]);
        LoadedMembers(entries, now, table[b]);
      }
    }
    if OneEach(table) {
      forall i, j | 0 <= i < j < |entries| && LiveEntry(entries, i, now) && LiveEntry(entries, j, now)
        ensures !SamePlayer(entries[i].grant, entries[j].grant)
      {
        LoadedMembers(entries, now, PairOf(entries[i]));
        LoadedMembers(entries, now, PairOf(entries[j]));
        var a :| 0 <= a < |table| && table[a] == PairOf(entries[i]);
        var b :| 0 <= b < |table| && table[b] == PairOf(entries[j]);
      }
    }
  }

  lemma LoadLeaves(entries: seq<StoredCredential>, now: int, hash: Hash)
    ensures var s := After(State([], Verifiers(entries)), Restart(now), hash);
            s.table == Loaded(entries, now) && Decoded(s.file) == Loaded(entries, now) && Unique(Loaded(entries, now))
  {
    DecodedIsUnique(entries);
    RemainingFacts(DecodedEntries(entries), ExpiredBy(now));
    DecodeInvertsEncode(Loaded(entries, now));
  }

  /** Loading a file gives a sound store if and only if, among its live entries, every
      grant names its own identifier and no two belong to one player. */
  lemma LoadIsSoundExactly(entries: seq<StoredCredential>, now: int, hash: Hash)
    ensures Sound(After(State([], Verifiers(entries)), Restart(now), hash))
            <==> OwnGrants(entries, now) && OneEachPlayer(entries, now)
  {
    LoadLeaves(entries, now, hash);
    OwnGrantsExactly(entries, now);
    OneEachExactly(entries, now);
  }

  /** A file that does not load soundly: two live credentials of one player. */
  lemma SharedPlayerLoadsUnsound(a: StoredCredential, b: StoredCredential, now: int, hash: Hash)
    requires a.tokenId != b.tokenId && SamePlayer(a.grant, b.grant) && !Expired(a.grant, now) && !Expired(b.grant, now)
    ensures !Sound(After(State([], Verifiers([a, b])), Restart(now), hash))
  {
    LoadIsSoundExactly([a, b], now, hash);
    assert LiveEntry([a, b], 0, now) && LiveEntry([a, b], 1, now);
  }

  /** In particular a file is safe to load when its entries have distinct players and each
      grant names its own identifier. */
  lemma CleanFileLoadsSound(entries: seq<StoredCredential>, now: int, hash: Hash)
    requires forall i, j | 0 <= i < j < |entries| :: !SamePlayer(entries[i].grant, entries[j].grant)
    requires forall i | 0 <= i < |entries| :: entries[i].grant.tokenId == entries[i].tokenId
    ensures Sound(After(State([], Verifiers(entries)), Restart(now), hash))
  {
    LoadIsSoundExactly(entries, now, hash);
  }

  /** Hence every store opened on a missing, unreadable, blank or malformed file, or on one
      whose live entries are so, stays sound for ever. */
  lemma StoresAreSound(file: File, now: int, calls: seq<Call>, hash: Hash)
    requires file.Verifiers? ==> OwnGrants(file.entries, now) && OneEachPlayer(file.entries, now)
    requires FreshRun(After(State([], file), Restart(now), hash), calls, hash)
    ensures Sound(Run(After(State([], file), Restart(now), hash), calls, hash))
  {
    if file.Verifiers? {
      LoadIsSoundExactly(file.entries, now, hash);
    }
    RunKeepsSound(After(State([], file), Restart(now), hash), calls, hash);
  }

  // ------------------------------------------------------------------------------ dead tokens

  ghost predicate Absent(table: Table, tokenId: string) {
    forall p | p in table :: p.key != tokenId
  }

  lemma AbsentStays(s: State, call: Call, hash: Hash, tokenId: string)
    requires Sound(s) && FreshMint(s, call) && Absent(s.table, tokenId)
    requires call.Mint? ==> call.token.tokenId != tokenId
    ensures Absent(After(s, call, hash).table, tokenId)
  {
    match call
    case Mint(grant, token, now) =>
      var fresh0 := Remaining(s.table, ExpiredBy(now));
      RemainingFacts(s.table, ExpiredBy(now));
      RemainingFacts(fresh0, OwnedBy(grant.saveId, grant.playerId));
      SetElements(Remaining(fresh0, OwnedBy(grant.saveId, grant.playerId)), token.tokenId,
                  Credential(hash(token.secret), grant.(tokenId := token.tokenId)));
    case Verify(token, now) => if token.Some? { DeleteFacts(s.table, token.value.tokenId); }
    case Revoke(id) => DeleteFacts(s.table, id);
    case RevokePlayer(saveId, playerId) => RemainingFacts(s.table, OwnedBy(saveId, playerId));
    case Sweep(now) => RemainingFacts(s.table, ExpiredBy(now));
    case Restart(now) => RemainingFacts(s.table, ExpiredBy(now));
  }

  /** Once its identifier has left the store, a token never verifies again, through any
      run of calls and restarts that does not mint that identifier anew. */
  lemma {:induction false} DeadTokensStayDead(s: State, calls: seq<Call>, hash: Hash, token: Token, now: int)
    requires Sound(s) && FreshRun(s, calls, hash) && Absent(s.table, token.tokenId)
    requires forall i | 0 <= i < |calls| && calls[i].Mint? :: calls[i].token.tokenId != token.tokenId
    ensures VerifyAnswer(Run(s, calls, hash).table, Some(token), now, hash) == None
    decreases calls
  {
    if calls == [] {
      LookupFinds(s.table, token.tokenId);
    } else {
      CallKeepsSound(s, calls[0], hash);
      AbsentStays(s, calls[0], hash, token.tokenId);
      DeadTokensStayDead(After(s, calls[0], hash), calls[1..], hash, token, now);
    }
  }

  /** What takes a credential out of the store for good: revoking it or its player, and
      pairing its player again. */
  predicate Kills(call: Call, p: Pair<string, Credential>) {
    match call
    case Revoke(tokenId) => tokenId == p.key
    case RevokePlayer(saveId, playerId) => Matches(p.value, OwnedBy(saveId, playerId))
    case Mint(grant, token, now) => Matches(p.value, OwnedBy(grant.saveId, grant.playerId))
    case _ => false
  }

  lemma SameKeySamePair(table: Table, p: Pair<string, Credential>)
    requires Unique(table) && p in table
    ensures forall q | q in table && q.key == p.key :: q == p
  {
  }

  lemma PlayerGone(table: Table, p: Pair<string, Credential>)
    requires Unique(table) && p in table
    ensures Absent(Remaining(table, OwnedBy(p.value.grant.saveId, p.value.grant.playerId)), p.key)
  {
    RemainingFacts(table, OwnedBy(p.value.grant.saveId, p.value.grant.playerId));
    SameKeySamePair(table, p);
  }

  lemma MintReplaces(s: State, grant: Grant, token: Token, now: int, hash: Hash, p: Pair<string, Credential>)
    requires Sound(s) && p in s.table && p.key != token.tokenId
    requires Matches(p.value, OwnedBy(grant.saveId, grant.playerId))
    ensures Absent(Minted(s, grant, token, now, hash).table, p.key)
  {
    var live := Remaining(s.table, ExpiredBy(now));
    var cleared := Remaining(live, OwnedBy(grant.saveId, grant.playerId));
    RemainingFacts(s.table, ExpiredBy(now));
    RemainingFacts(live, OwnedBy(grant.saveId, grant.playerId));
    SameKeySamePair(s.table, p);
    SetElements(cleared, token.tokenId, Credential(hash(token.secret), grant.(tokenId := token.tokenId)));
  }

  lemma KilledIsAbsent(s: State, call: Call, hash: Hash, p: Pair<string, Credential>)
    requires Sound(s) && FreshMint(s, call) && p in s.table && Kills(call, p)
    ensures Absent(After(s, call, hash).table, p.key)
  {
    match call
    case Revoke(tokenId) => DeleteFacts(s.table, tokenId);
    case RevokePlayer(saveId, playerId) => PlayerGone(s.table, p);
    case Mint(grant, token, now) => MintReplaces(s, grant, token, now, hash, p);
    case _ =>
  }

  /** A replaced or revoked token never verifies again, with any secret, before or after
      any number of later calls and restarts. */
  lemma KilledTokensNeverVerify(
      s: State, call: Call, calls: seq<Call>, hash: Hash, p: Pair<string, Credential>, secret: string, now: int)
    requires Sound(s) && p in s.table && Kills(call, p)
    requires FreshMint(s, call) && FreshRun(After(s, call, hash), calls, hash)
    requires forall i | 0 <= i < |calls| && calls[i].Mint? :: calls[i].token.tokenId != p.key
    ensures VerifyAnswer(Run(After(s, call, hash), calls, hash).table, Some(Token(p.key, secret)), now, hash) == None
  {
    CallKeepsSound(s, call, hash);
    KilledIsAbsent(s, call, hash, p);
    DeadTokensStayDead(After(s, call, hash), calls, hash, Token(p.key, secret), now);
  }

  /** Verification answers with a grant exactly when the store holds it under the token's
      identifier and secret, neither revoked nor expired. */
  lemma VerifiesExactly(table: Table, token: Token, now: int, hash: Hash, grant: Grant)
    requires Unique(table)
    ensures VerifyAnswer(table, Some(token), now, hash) == Some(grant)
            <==> grant.revokedAt.None? && (grant.expiresAt.Some? ==> grant.expiresAt.value > now)
                 && Pair(token.tokenId, Credential(hash(token.secret), grant)) in table
  {
    LookupFinds(table, token.tokenId);
    var found := Lookup(table, token.tokenId);
    if Pair(token.tokenId, Credential(hash(token.secret), grant)) in table {
      SameKeySamePair(table, Pair(token.tokenId, Credential(hash(token.secret), grant)));
    }
  }

  ghost predicate Injective(hash: Hash) {
    forall a, b | hash(a) == hash(b) :: a == b
  }

  /** A freshly minted token verifies, and only in its own exact form. */
  lemma MintedVerifiesExactly(s: State, grant: Grant, token: Token, now: int, hash: Hash, other: Token)
    requires Sound(s) && Injective(hash) && grant.revokedAt.None? && !Expired(grant, now)
    requires other.tokenId == token.tokenId
    ensures VerifyAnswer(Minted(s, grant, token, now, hash).table, Some(other), now, hash)
            == if other == token then Some(grant.(tokenId := token.tokenId)) else None
  {
    var cleared := Remaining(Remaining(s.table, ExpiredBy(now)), OwnedBy(grant.saveId, grant.playerId));
    SetLookup(cleared, token.tokenId, Credential(hash(token.secret), grant.(tokenId := token.tokenId)), token.tokenId);
  }

  // ------------------------------------------------------------------------------- the class

  class CredentialStore {
    var table: Table
    var file: File
    const hash: Hash

    ghost function View(): State
      reads this
    {
      State(table, file)
    }

    /** A store opened on what the file holds. */
    constructor (file: File, hash: Hash, now: int)
      ensures this.hash == hash && View() == After(State([], file), Restart(now), hash)
    {
      this.table, this.file, this.hash := [], file, hash;
      new;
      if file.Verifiers? {
        LoadEntries(file.entries);
        SweepExpired(now);
      }
    }

    /** The loop of `load`. */
    method LoadEntries(entries: seq<StoredCredential>)
      requires table == []
      modifies this`table
      ensures table == DecodedEntries(entries)
    {
      for i := 0 to |entries|
        invariant table == DecodedEntries(entries[..i])
      {
        assert entries[..i + 1][..i] == entries[..i];
        table := Set(table, entries[i].tokenId, Credential(entries[i].secretHash, entries[i].grant));
      }
      assert entries[..|entries|] == entries;
    }

    method Persist()
      modifies this`file
      ensures file == EncodedFile(table)
    {
      file := EncodedFile(table);
    }

    /** The loops of `sweep` and `revokePlayer`: remove while iterating, persist if anything went. */
    method RemoveMatching(criterion: Criterion)
      modifies this`table, this`file
      ensures View() == WithTable(old(View()), Remaining(old(table), criterion))
    {
      var removed := false;
      var i := 0;
      assert table[..0] == [];
      while i < |table|
        invariant 0 <= i <= |table| && file == old(file)
        invariant table[..i] + Remaining(table[i..], criterion) == Remaining(old(table), criterion)
        invariant if removed then |table| < |old(table)| else table == old(table)
        decreases |table| - i
      {
        RemainingStep(table, i, criterion);
        if Matches(table[i].value, criterion) {
          table := table[..i] + table[i + 1..];
          removed := true;
        } else {
          i := i + 1;
        }
      }
      assert table[..i] + [] == table;
      if removed {
        Persist();
      }
    }

    method SweepExpired(now: int)
      modifies this`table, this`file
      ensures View() == WithTable(old(View()), Remaining(old(table), ExpiredBy(now)))
    {
      RemoveMatching(ExpiredBy(now));
    }

    method MintCredential(grant: Grant, token: Token, now: int)
      modifies this`table, this`file
      ensures View() == After(old(View()), Mint(grant, token, now), hash)
    {
      SweepExpired(now);
      RemoveMatching(OwnedBy(grant.saveId, grant.playerId));
      table := Set(table, token.tokenId, Credential(hash(token.secret), grant.(tokenId := token.tokenId)));
      Persist();
    }

    /** `verify`; `None` stands for a token that is absent or not of the exact form. */
    method VerifyToken(token: Option<Token>, now: int) returns (grant: Option<Grant>)
      modifies this`table, this`file
      ensures grant == VerifyAnswer(old(table), token, now, hash)
      ensures View() == After(old(View()), Verify(token, now), hash)
    {
      if token.None? {
        return None;
      }
      var stored := Lookup(table, token.value.tokenId);
      if stored.None? || stored.value.secretHash != hash(token.value.secret) {
        return None;
      }
      if stored.value.grant.revokedAt.Some? {
        return None;
      }
      if Expired(stored.value.grant, now) {
        table := Delete(table, token.value.tokenId);
        Persist();
        return None;
      }
      grant := Some(stored.value.grant);
    }

    method RevokeToken(tokenId: string)
      requires Unique(table)
      modifies this`table, this`file
      ensures View() == After(old(View()), Revoke(tokenId), hash)
    {
      DeleteFacts(table, tokenId);
      DeleteAbsent(table, tokenId);
      var found := Lookup(table, tokenId).Some?;
      table := Delete(table, tokenId);
      if found {
        Persist();
      }
    }

    method RevokeByPlayer(saveId: string, playerId: string)
      modifies this`table, this`file
      ensures View() == After(old(View()), RevokePlayer(saveId, playerId), hash)
    {
      RemoveMatching(OwnedBy(saveId, playerId));
    }
  }

  lemma {:induction false} DeleteAbsent(table: Table, key: string)
    ensures Lookup(table, key).None? ==> Delete(table, key) == table
  {
    if table != [] {
      DeleteAbsent(table[1..], key);
      assert table == [table[0]] + table[1..];
    }
  }
}
