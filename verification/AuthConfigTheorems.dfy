/** What an auth configuration means, over every text: last assignment wins, and the order of tables is irrelevant. */
module AuthConfigTheorems {
  import opened Bytes
  import opened ConfigText
  import opened AuthConfig

  // ---------- what the lines mean when read as a whole ----------

  /** The client whose table governs line `n`: the table header closest above it, if that is a client's. */
  function Governor(lines: seq<string>, n: nat): Option<string>
    requires n <= |lines|
  {
    if n == 0 then None else
    match Classify(lines[n - 1])
    case AuthTable => None
    case ForeignTable => None
    case ClientTable(id) => Some(id)
    case _ => Governor(lines, n - 1)
  }

  /** Line `i` gives the token key `key` of client `id` the value `value`. */
  predicate Gives(lines: seq<string>, i: nat, id: string, key: string, value: string)
    requires i < |lines|
  {
    && IsTokenKey(key) && Governor(lines, i) == Some(id)
    && Classify(lines[i]).Assignment? && Classify(lines[i]).key == key
    && Between(Classify(lines[i]).rawValue, "\"", "\"") == Some(value)
  }

  /** The fault of line `i`, if it has one. */
  function Fault(lines: seq<string>, i: nat): Option<ConfigError>
    requires i < |lines|
  {
    match Classify(lines[i])
    case UnnamedClientTable => Some(InvalidTomlLine(i + 1, "auth client table name is empty"))
    case NotAnAssignment => Some(InvalidTomlLine(i + 1, "expected key = value"))
    case Assignment(key, rawValue) =>
      if Governor(lines, i).Some? && IsTokenKey(key) && Between(rawValue, "\"", "\"").None?
      then Some(InvalidTomlString(i + 1, key)) else None
    case _ => None
  }

  /** `value` is the last one given to this key of this client among the first `n` lines. */
  ghost predicate LastGiven(lines: seq<string>, n: nat, id: string, key: string, value: Option<string>)
    requires n <= |lines|
  {
    match value
    case Some(v) =>
      exists i :: 0 <= i < n && Gives(lines, i, id, key, v)
                  && forall j, w :: i < j < n ==> !Gives(lines, j, id, key, w)
    case None => forall j, w :: 0 <= j < n ==> !Gives(lines, j, id, key, w)
  }

  /** The tables: which one is current, whether there was an auth table, and which clients have one. */
  ghost predicate TablesMean(lines: seq<string>, n: nat, s: State)
    requires n <= |lines|
  {
    && s.current == Governor(lines, n)
    && (s.sawAuth <==> exists i :: 0 <= i < n && (Classify(lines[i]).AuthTable? || Classify(lines[i]).ClientTable?))
    && (forall id :: id in s.clients <==> exists i :: 0 <= i < n && Classify(lines[i]) == ClientTable(id))
    && (s.current.Some? ==> s.current.value in s.clients)
  }

  ghost predicate ClientMeans(lines: seq<string>, n: nat, id: string, c: Client)
    requires n <= |lines|
  {
    LastGiven(lines, n, id, TOKEN, c.sharedToken) && LastGiven(lines, n, id, TOKEN_ENV, c.sharedTokenEnv)
  }

  /** The state after `n` lines says what those lines mean. */
  ghost predicate Means(lines: seq<string>, n: nat, s: State)
    requires n <= |lines|
  {
    TablesMean(lines, n, s) && forall id :: id in s.clients ==> ClientMeans(lines, n, id, s.clients[id])
  }

  lemma {:induction false} GivenBefore(lines: seq<string>, n: nat, id: string, key: string, value: Option<string>)
    requires n < |lines| && LastGiven(lines, n, id, key, value)
    requires forall w :: !Gives(lines, n, id, key, w)
    ensures LastGiven(lines, n + 1, id, key, value)
  {
    hide Gives;
    if value.Some? {
      var i :| 0 <= i < n && Gives(lines, i, id, key, value.value)
               && forall j, w :: i < j < n ==> !Gives(lines, j, id, key, w);
    }
  }

  lemma GivenNow(lines: seq<string>, n: nat, id: string, key: string, value: string)
    requires n < |lines| && Gives(lines, n, id, key, value)
    ensures LastGiven(lines, n + 1, id, key, Some(value))
  {
    hide Gives;
  }

  /** A client that no line up to here governs has been given nothing. */
  lemma {:induction false} UngovernedGivesNothing(lines: seq<string>, n: nat, id: string, key: string)
    requires n <= |lines| && forall i :: 0 <= i < n ==> Classify(lines[i]) != ClientTable(id)
    ensures LastGiven(lines, n, id, key, None)
  {
    forall j, w | 0 <= j < n
      ensures !Gives(lines, j, id, key, w)
    {
      NeverGoverns(lines, j, id);
    }
  }

  lemma {:induction false} NeverGoverns(lines: seq<string>, n: nat, id: string)
    requires n <= |lines| && forall i :: 0 <= i < n ==> Classify(lines[i]) != ClientTable(id)
    ensures Governor(lines, n) != Some(id)
  {
    hide Classify;
    if n > 0 {
      NeverGoverns(lines, n - 1, id);
    }
  }

  lemma {:induction false} StepTables(lines: seq<string>, n: nat, s: State)
    requires n < |lines| && TablesMean(lines, n, s) && Step(s, lines[n], n + 1).Ok?
    ensures TablesMean(lines, n + 1, Step(s, lines[n], n + 1).value)
  {
    hide Classify, ParseString;
    var line := Classify(lines[n]);
    forall id
      ensures (exists i :: 0 <= i < n + 1 && Classify(lines[i]) == ClientTable(id))
         <==> (exists i :: 0 <= i < n && Classify(lines[i]) == ClientTable(id)) || line == ClientTable(id)
    {
      if line == ClientTable(id) {
        assert Classify(lines[n]) == ClientTable(id);
      }
    }
    assert (exists i :: 0 <= i < n + 1 && (Classify(lines[i]).AuthTable? || Classify(lines[i]).ClientTable?))
      <==> (exists i :: 0 <= i < n && (Classify(lines[i]).AuthTable? || Classify(lines[i]).ClientTable?))
           || line.AuthTable? || line.ClientTable? by {
      if line.AuthTable? || line.ClientTable? {
        assert Classify(lines[n]) == line;
      }
    }
  }

  /** A line that gives this client nothing leaves what it was given last. */
  lemma {:induction false} ClientKeeps(lines: seq<string>, n: nat, id: string, c: Client)
    requires n < |lines| && ClientMeans(lines, n, id, c)
    requires !Classify(lines[n]).Assignment? || Governor(lines, n) != Some(id) || !IsTokenKey(Classify(lines[n]).key)
    ensures ClientMeans(lines, n + 1, id, c)
  {
    hide Classify, Governor;
    GivenBefore(lines, n, id, TOKEN, c.sharedToken);
    GivenBefore(lines, n, id, TOKEN_ENV, c.sharedTokenEnv);
  }

  lemma {:induction false} ClientTakes(lines: seq<string>, n: nat, id: string, c: Client, key: string, value: string)
    requires n < |lines| && ClientMeans(lines, n, id, c) && Gives(lines, n, id, key, value)
    ensures ClientMeans(lines, n + 1, id, With(c, key, value))
  {
    hide Classify, Governor, Between;
    GivenNow(lines, n, id, key, value);
    if key == TOKEN {
      GivenBefore(lines, n, id, TOKEN_ENV, c.sharedTokenEnv);
    } else {
      GivenBefore(lines, n, id, TOKEN, c.sharedToken);
    }
  }

  lemma {:induction false} NewClientMeans(lines: seq<string>, n: nat, s: State, id: string)
    requires n <= |lines| && TablesMean(lines, n, s) && id !in s.clients
    ensures ClientMeans(lines, n, id, NEW_CLIENT)
  {
    hide Classify, Governor, LastGiven;
    forall i | 0 <= i < n
      ensures Classify(lines[i]) != ClientTable(id)
    {
    }
    UngovernedGivesNothing(lines, n, id, TOKEN);
    UngovernedGivesNothing(lines, n, id, TOKEN_ENV);
  }

  lemma {:induction false} StepClient(lines: seq<string>, n: nat, s: State, id: string)
    requires n < |lines| && Means(lines, n, s) && Step(s, lines[n], n + 1).Ok?
    requires id in Step(s, lines[n], n + 1).value.clients
    ensures ClientMeans(lines, n + 1, id, Step(s, lines[n], n + 1).value.clients[id])
  {
    hide Classify, Governor, LastGiven, Between, ClientMeans;
    var line := Classify(lines[n]);
    if id !in s.clients {
      NewClientMeans(lines, n, s, id);
      ClientKeeps(lines, n, id, NEW_CLIENT);
    } else if line.Assignment? && s.current == Some(id) && IsTokenKey(line.key) {
      ClientTakes(lines, n, id, s.clients[id], line.key, Between(line.rawValue, "\"", "\"").value);
    } else {
      ClientKeeps(lines, n, id, s.clients[id]);
    }
  }

  lemma {:induction false} StepMeans(lines: seq<string>, n: nat, s: State)
    requires n < |lines| && Means(lines, n, s)
    ensures match Step(s, lines[n], n + 1)
            case Ok(s') => Fault(lines, n).None? && Means(lines, n + 1, s')
            case Err(e) => Fault(lines, n) == Some(e)
  {
    hide Classify, Between, ClientMeans, Governor;
    if Step(s, lines[n], n + 1).Ok? {
      StepTables(lines, n, s);
      var s' := Step(s, lines[n], n + 1).value;
      forall id | id in s'.clients
        ensures ClientMeans(lines, n + 1, id, s'.clients[id])
      {
        StepClient(lines, n, s, id);
      }
    }
  }

  /** Line `i` is the first faulty one from line `n` on. */
  predicate FirstFault(lines: seq<string>, n: nat, i: nat, e: ConfigError) {
    n <= i < |lines| && Fault(lines, i) == Some(e) && forall j :: n <= j < i ==> Fault(lines, j).None?
  }

  /** The outcome of folding the lines from `n` on. */
  ghost predicate FoldedFrom(lines: seq<string>, n: nat, r: Result<State, ConfigError>)
    requires n <= |lines|
  {
    match r
    case Ok(s) => Means(lines, |lines|, s) && forall j :: n <= j < |lines| ==> Fault(lines, j).None?
    case Err(e) => exists i :: FirstFault(lines, n, i, e)
  }

  lemma FoldedEarlier(lines: seq<string>, n: nat, r: Result<State, ConfigError>)
    requires n < |lines| && FoldedFrom(lines, n + 1, r) && Fault(lines, n).None?
    ensures FoldedFrom(lines, n, r)
  {
    hide Fault, Means;
    if r.Err? {
      var i :| FirstFault(lines, n + 1, i, r.error);
      assert FirstFault(lines, n, i, r.error);
    }
  }

  lemma {:induction false} FoldMeans(lines: seq<string>, n: nat, s: State)
    requires n <= |lines| && Means(lines, n, s)
    ensures FoldedFrom(lines, n, Fold(s, lines[n..], n + 1))
    decreases |lines| - n
  {
    hide Means, Step, Fault;
    if n < |lines| {
      StepMeans(lines, n, s);
      assert lines[n..][0] == lines[n] && lines[n..][1..] == lines[n + 1..];
      match Step(s, lines[n], n + 1)
      case Err(e) =>
        assert FirstFault(lines, n, n, e);
      case Ok(s') =>
        FoldMeans(lines, n + 1, s');
        FoldedEarlier(lines, n, Fold(s', lines[n + 1..], n + 2));
    }
  }

  /**
   * The loop and the meaning agree: it fails on the first faulty line, then on a missing auth section, and
   * otherwise holds exactly the clients with a table, each with the last token references given to it.
   */
  lemma ParseMeaning(lines: seq<string>)
    ensures match Parse(lines)
            case Ok(s) =>
              && (forall i :: 0 <= i < |lines| ==> Fault(lines, i).None?)
              && s.sawAuth && Means(lines, |lines|, s)
            case Err(e) =>
              (exists i :: FirstFault(lines, 0, i, e))
              || (e == MissingAuthSection && (forall i :: 0 <= i < |lines| ==> Fault(lines, i).None?)
                  && forall i :: 0 <= i < |lines| ==>
                       !Classify(lines[i]).AuthTable? && !Classify(lines[i]).ClientTable?)
  {
    NothingMeans(lines);
    hide Fault, Fold, Classify, Governor, ClientMeans;
    assert lines[0..] == lines;
    FoldMeans(lines, 0, START);
  }

  lemma NothingMeans(lines: seq<string>)
    ensures Means(lines, 0, START)
  {
    hide Classify;
  }

  // ---------- loading ----------

  /** Exactly one of the two keys is given, and its value is not blank. */
  predicate Usable(c: Client) {
    && (c.sharedToken.Some? <==> c.sharedTokenEnv.None?)
    && (c.sharedToken.Some? ==> !IsBlank(c.sharedToken.value))
    && (c.sharedTokenEnv.Some? ==> !IsBlank(c.sharedTokenEnv.value))
  }

  /** `r` is what the one key of the client says. */
  predicate Says(c: Client, r: SecretRef) {
    match r
    case InlinePlaceholder(token) => c == Client(Some(token), None)
    case EnvironmentVariable(name) => c == Client(None, Some(name))
  }

  /** `e` is what is wrong with a client that is not usable: both keys, or no value at all. */
  predicate Wrong(id: string, c: Client, e: ConfigError) {
    !Usable(c) &&
    e == if c.sharedToken.Some? && c.sharedTokenEnv.Some?
         then ConflictingSharedTokenRefs(id) else MissingSharedToken(id)
  }

  lemma ReferenceFields(id: string, c: Client)
    ensures match Reference(id, c)
            case Ok(r) => Usable(c) && Says(c, r)
            case Err(e) => Wrong(id, c, e)
  {
    hide IsBlank;
  }

  /** The result built from the clients `ids`, entry by entry. */
  ghost predicate BuiltFrom(clients: map<string, Client>, ids: seq<string>, c: Config)
    requires forall id :: id in ids ==> id in clients
  {
    && |c.allowedClients| == |c.sharedTokens| == |ids|
    && forall i :: 0 <= i < |ids| ==>
         && c.allowedClients[i] == AllowedClient(ids[i], ids[i])
         && c.sharedTokens[i].tokenId == ids[i]
         && Reference(ids[i], clients[ids[i]]) == Ok(c.sharedTokens[i].secretRef)
  }

  /** The client at `i` is the first of `ids` without a reference. */
  ghost predicate FirstRefusal(clients: map<string, Client>, ids: seq<string>, i: nat, e: ConfigError)
    requires forall id :: id in ids ==> id in clients
  {
    && i < |ids| && Reference(ids[i], clients[ids[i]]) == Err(e)
    && forall j :: 0 <= j < i ==> Reference(ids[j], clients[ids[j]]).Ok?
  }

  lemma {:induction false} EntriesOutcome(clients: map<string, Client>, ids: seq<string>)
    requires forall id :: id in ids ==> id in clients
    ensures match Entries(clients, ids)
            case Ok(c) => BuiltFrom(clients, ids, c)
            case Err(e) => exists i: nat :: FirstRefusal(clients, ids, i, e)
  {
    hide Reference, BuiltFrom, FirstRefusal;
    if ids == [] {
      NothingBuilt(clients);
    } else {
      var rest, first := ids[1..], Reference(ids[0], clients[ids[0]]);
      EntriesOutcome(clients, rest);
      if first.Err? {
        FirstRefused(clients, ids, first.error);
        assert FirstRefusal(clients, ids, 0, Entries(clients, ids).error);
      } else if Entries(clients, rest).Err? {
        var i: nat :| FirstRefusal(clients, rest, i, Entries(clients, rest).error);
        LaterFault(clients, ids, i, Entries(clients, rest).error);
        assert FirstRefusal(clients, ids, i + 1, Entries(clients, ids).error);
      } else {
        OneMoreBuilt(clients, ids, first.value, Entries(clients, rest).value);
      }
    }
  }

  lemma NothingBuilt(clients: map<string, Client>)
    ensures BuiltFrom(clients, [], Config([], []))
  {
  }

  lemma OneMoreBuilt(clients: map<string, Client>, ids: seq<string>, r: SecretRef, rest: Config)
    requires forall id :: id in ids ==> id in clients
    requires ids != [] && Reference(ids[0], clients[ids[0]]) == Ok(r) && BuiltFrom(clients, ids[1..], rest)
    ensures BuiltFrom(clients, ids, Config([AllowedClient(ids[0], ids[0])] + rest.allowedClients,
                                           [SharedToken(ids[0], r)] + rest.sharedTokens))
  {
    hide Reference;
    forall i | 1 <= i < |ids|
      ensures ids[i] == ids[1..][i - 1]
    {
    }
  }

  lemma FirstRefused(clients: map<string, Client>, ids: seq<string>, e: ConfigError)
    requires forall id :: id in ids ==> id in clients
    requires ids != [] && Reference(ids[0], clients[ids[0]]) == Err(e)
    ensures FirstRefusal(clients, ids, 0, e)
  {
  }

  lemma LaterFault(clients: map<string, Client>, ids: seq<string>, i: nat, e: ConfigError)
    requires forall id :: id in ids ==> id in clients
    requires ids != [] && Reference(ids[0], clients[ids[0]]).Ok? && FirstRefusal(clients, ids[1..], i, e)
    ensures FirstRefusal(clients, ids, i + 1, e)
  {
    hide Reference;
    forall j | 0 <= j < i + 1
      ensures Reference(ids[j], clients[ids[j]]).Ok?
    {
      if j > 0 {
        assert ids[1..][j - 1] == ids[j];
      }
    }
  }

  /** The two lists of a configuration are in strictly ascending id order and belong together index by index. */
  ghost predicate Paired(c: Config) {
    && |c.allowedClients| == |c.sharedTokens|
    && (forall i :: 0 <= i < |c.allowedClients| ==>
          && c.allowedClients[i].sharedTokenId == c.allowedClients[i].clientId
          && c.sharedTokens[i].tokenId == c.allowedClients[i].clientId)
    && (forall i, j :: 0 <= i < j < |c.allowedClients| ==>
          Before(c.allowedClients[i].clientId, c.allowedClients[j].clientId))
  }

  /** `e` is what is wrong with a client before which, in id order, every client is usable. */
  ghost predicate LeastOffender(clients: map<string, Client>, id: string, e: ConfigError) {
    && id in clients && Wrong(id, clients[id], e)
    && forall other :: other in clients && Before(other, id) ==> Usable(clients[other])
  }

  ghost predicate LeastRefused(clients: map<string, Client>, id: string, e: ConfigError) {
    && id in clients && Reference(id, clients[id]) == Err(e)
    && forall other :: other in clients && Before(other, id) ==> Reference(other, clients[other]).Ok?
  }

  lemma SortedIds(clients: map<string, Client>)
    ensures var ids := Sorted(clients.Keys);
            && |ids| == |clients| && (forall id :: id in ids <==> id in clients)
            && (forall i, j :: 0 <= i < j < |ids| ==> Before(ids[i], ids[j]))
  {
    hide Before, Sorted;
    var ids := Sorted(clients.Keys);
    forall i, j | 0 <= i < j < |ids|
      ensures Before(ids[i], ids[j])
    {
      SortedIsAscending(clients.Keys, i, j);
    }
  }

  lemma BuiltIsPaired(clients: map<string, Client>, ids: seq<string>, c: Config)
    requires (forall id :: id in ids ==> id in clients) && BuiltFrom(clients, ids, c)
    requires forall i, j :: 0 <= i < j < |ids| ==> Before(ids[i], ids[j])
    ensures Paired(c)
    ensures forall t :: t in c.sharedTokens ==>
              t.tokenId in clients && Reference(t.tokenId, clients[t.tokenId]) == Ok(t.secretRef)
  {
    hide Reference, Before;
  }

  /** When every client has a reference, the result lists exactly the clients, in order and paired. */
  lemma EntriesPaired(clients: map<string, Client>, c: Config)
    requires Entries(clients, Sorted(clients.Keys)) == Ok(c)
    ensures Paired(c) && |c.allowedClients| == |clients|
    ensures forall t :: t in c.sharedTokens ==>
              t.tokenId in clients && Reference(t.tokenId, clients[t.tokenId]) == Ok(t.secretRef)
  {
    hide Reference, Before, Sorted, Entries, Paired;
    SortedIds(clients);
    EntriesOutcome(clients, Sorted(clients.Keys));
    BuiltIsPaired(clients, Sorted(clients.Keys), c);
  }

  lemma EntriesSucceedIff(clients: map<string, Client>)
    ensures Entries(clients, Sorted(clients.Keys)).Ok? <==>
              forall id :: id in clients ==> Reference(id, clients[id]).Ok?
    ensures Entries(clients, Sorted(clients.Keys)).Err? ==>
              exists id :: LeastRefused(clients, id, Entries(clients, Sorted(clients.Keys)).error)
  {
    var ids := Sorted(clients.Keys);
    SortedIds(clients);
    EntriesOutcome(clients, ids);
    hide Reference, Before, Sorted, Entries;
    if Entries(clients, ids).Ok? {
      assert BuiltFrom(clients, ids, Entries(clients, ids).value);
      forall id | id in clients
        ensures Reference(id, clients[id]).Ok?
      {
        assert id in ids;
        var i :| 0 <= i < |ids| && ids[i] == id;
      }
    } else {
      LeastIsFirst(clients, ids, Entries(clients, ids).error);
    }
  }

  /** What `EntriesPaired` and `EntriesSucceedIff` say of references, said of the keys in the file. */
  lemma RefusedIsOffender(clients: map<string, Client>, id: string, e: ConfigError)
    requires LeastRefused(clients, id, e)
    ensures LeastOffender(clients, id, e)
  {
    hide Reference, Usable, Wrong, Before;
    ReferenceFields(id, clients[id]);
    forall other | other in clients && Before(other, id)
      ensures Usable(clients[other])
    {
      ReferenceFields(other, clients[other]);
    }
  }

  lemma AllUsableIff(clients: map<string, Client>)
    ensures (forall id :: id in clients ==> Reference(id, clients[id]).Ok?)
       <==> (forall id :: id in clients ==> Usable(clients[id]))
  {
    hide Reference, Usable, Says;
    forall id | id in clients
      ensures Reference(id, clients[id]).Ok? <==> Usable(clients[id])
    {
      ReferenceFields(id, clients[id]);
    }
  }

  lemma TokensSay(clients: map<string, Client>, c: Config)
    requires Entries(clients, Sorted(clients.Keys)) == Ok(c)
    ensures Paired(c) && |c.allowedClients| == |clients|
    ensures forall t :: t in c.sharedTokens ==> t.tokenId in clients && Says(clients[t.tokenId], t.secretRef)
  {
    hide Reference, Entries, Sorted, Paired, Says;
    EntriesPaired(clients, c);
    forall t | t in c.sharedTokens
      ensures t.tokenId in clients && Says(clients[t.tokenId], t.secretRef)
    {
      ReferenceFields(t.tokenId, clients[t.tokenId]);
    }
  }

  /**
   * Once the lines are parsed and there is a client, loading succeeds exactly when every client has exactly one of
   * the two keys and its value is not blank. The result then lists exactly those clients in order, each with what
   * its key says; otherwise the error is that of the least offending id.
   */
  lemma LoadMeaning(lines: seq<string>)
    requires Parse(lines).Ok?
    ensures var clients := Parse(lines).value.clients;
            if clients == map[] then Load(lines) == Err(NoAuthClients) else
            && (Load(lines).Ok? <==> forall id :: id in clients ==> Usable(clients[id]))
            && (match Load(lines)
                case Ok(c) =>
                  && Paired(c) && |c.allowedClients| == |clients|
                  && (forall t :: t in c.sharedTokens ==> t.tokenId in clients && Says(clients[t.tokenId], t.secretRef))
                case Err(e) => exists id :: LeastOffender(clients, id, e))
  {
    var clients := Parse(lines).value.clients;
    hide Parse, Reference, Before, Sorted, Entries, Paired, LeastOffender, LeastRefused, Usable, Says;
    if clients != map[] {
      EntriesSucceedIff(clients);
      AllUsableIff(clients);
      if Load(lines).Ok? {
        TokensSay(clients, Load(lines).value);
      } else {
        var id :| LeastRefused(clients, id, Load(lines).error);
        RefusedIsOffender(clients, id, Load(lines).error);
      }
    }
  }

  lemma LeastIsFirst(clients: map<string, Client>, ids: seq<string>, e: ConfigError)
    requires forall id :: id in ids <==> id in clients
    requires forall i, j :: 0 <= i < j < |ids| ==> Before(ids[i], ids[j])
    requires exists i: nat :: FirstRefusal(clients, ids, i, e)
    ensures exists id :: LeastRefused(clients, id, e)
  {
    hide Reference, Before;
    var i: nat :| FirstRefusal(clients, ids, i, e);
    forall other | other in clients && Before(other, ids[i])
      ensures Reference(other, clients[other]).Ok?
    {
      var j :| 0 <= j < |ids| && ids[j] == other;
      if j >= i {
        BeforeIsStrict(ids[i], other);
      }
    }
    assert LeastRefused(clients, ids[i], e);
  }
}
