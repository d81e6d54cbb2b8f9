/**
The auth section of the server configuration: one pass over the lines that remembers the current table, against
what the lines mean when read as a whole.
*/
module AuthConfig {
  import opened Bytes
  import opened ConfigText

  datatype Client = Client(sharedToken: Option<string>, sharedTokenEnv: Option<string>)

  const NEW_CLIENT: Client := Client(None, None)

  datatype SecretRef = InlinePlaceholder(token: string) | EnvironmentVariable(name: string)

  datatype AllowedClient = AllowedClient(clientId: string, sharedTokenId: string)

  datatype SharedToken = SharedToken(tokenId: string, secretRef: SecretRef)

  datatype Config = Config(allowedClients: seq<AllowedClient>, sharedTokens: seq<SharedToken>)

  datatype ConfigError =
    | InvalidTomlLine(line: nat, message: string)
    | InvalidTomlString(line: nat, key: string)
    | MissingAuthSection
    | NoAuthClients
    | MissingSharedToken(clientId: string)
    | ConflictingSharedTokenRefs(clientId: string)

  const TOKEN: string := "shared_token"
  const TOKEN_ENV: string := "shared_token_env"

  datatype Line =
    | Nothing
    | AuthTable
    | ClientTable(id: string)
    | UnnamedClientTable
    | ForeignTable
    | Assignment(key: string, rawValue: string)
    | NotAnAssignment

  /** What one line is, by itself. */
  function Classify(raw: string): Line {
    var line := Trim(StripComment(raw));
    if line == [] then Nothing else
    match Between(line, "[", "]")
    case Some(name) =>
      if name == "auth" || name == "auth.clients" then AuthTable else
      (match StripPrefix(name, "auth.clients.")
       case Some(id) => if Trim(id) == [] then UnnamedClientTable else ClientTable(Trim(id))
       case None => ForeignTable)
    case None =>
      var i := IndexOf(line, '=');
      if i == |line| then NotAnAssignment else Assignment(Trim(line[..i]), Trim(line[i + 1..]))
  }

  datatype State = State(current: Option<string>, sawAuth: bool, clients: map<string, Client>)

  const START: State := State(None, false, map[])

  function Entry(clients: map<string, Client>, id: string): Client {
    if id in clients then clients[id] else NEW_CLIENT
  }

  function ParseString(raw: string, line: nat, key: string): Result<string, ConfigError> {
    match Between(raw, "\"", "\"") case Some(inner) => Ok(inner) case None => Err(InvalidTomlString(line, key))
  }

  function With(c: Client, key: string, value: string): Client {
    if key == TOKEN then c.(sharedToken := Some(value)) else c.(sharedTokenEnv := Some(value))
  }

  predicate IsTokenKey(key: string) {
    key == TOKEN || key == TOKEN_ENV
  }

  function Step(s: State, raw: string, number: nat): Result<State, ConfigError> {
    match Classify(raw)
    case Nothing => Ok(s)
    case AuthTable => Ok(State(None, true, s.clients))
    case ClientTable(id) => Ok(State(Some(id), true, s.clients[id := Entry(s.clients, id)]))
    case UnnamedClientTable => Err(InvalidTomlLine(number, "auth client table name is empty"))
    case ForeignTable => Ok(State(None, s.sawAuth, s.clients))
    case NotAnAssignment => Err(InvalidTomlLine(number, "expected key = value"))
    case Assignment(key, rawValue) =>
      if s.current.None? || !IsTokenKey(key) then Ok(s) else
      var value :- ParseString(rawValue, number, key);
      Ok(s.(clients := s.clients[s.current.value := With(Entry(s.clients, s.current.value), key, value)]))
  }

  /** The lines from `number` on, one after the other. */
  function Fold(s: State, lines: seq<string>, number: nat): Result<State, ConfigError>
    decreases |lines|
  {
    if lines == [] then Ok(s) else
    var s' :- Step(s, lines[0], number);
    Fold(s', lines[1..], number + 1)
  }

  function Parse(lines: seq<string>): Result<State, ConfigError> {
    var s :- Fold(START, lines, 1);
    if s.sawAuth then Ok(s) else Err(MissingAuthSection)
  }

  method ParseAuthClients(input: string) returns (r: Result<State, ConfigError>)
    ensures r == Parse(Lines(input))
  {
    hide Classify, Trim, StripComment, Lines;
    var lines := Lines(input);
    var currentClientId, sawAuth, clients := None, false, map[];
    var index := 0;
    while index < |lines|
      invariant index <= |lines|
      invariant Fold(START, lines, 1) == Fold(State(currentClientId, sawAuth, clients), lines[index..], index + 1)
    {
      var lineNumber := index + 1;
      assert lines[index..][0] == lines[index] && lines[index..][1..] == lines[index + 1..];
      match Classify(lines[index]) {
        case Nothing =>
        case AuthTable =>
          currentClientId, sawAuth := None, true;
        case ClientTable(id) =>
          clients := clients[id := Entry(clients, id)];
          currentClientId, sawAuth := Some(id), true;
        case UnnamedClientTable =>
          return Err(InvalidTomlLine(lineNumber, "auth client table name is empty"));
        case ForeignTable =>
          currentClientId := None;
        case NotAnAssignment =>
          return Err(InvalidTomlLine(lineNumber, "expected key = value"));
        case Assignment(key, rawValue) =>
          if currentClientId.Some? && IsTokenKey(key) {
            var value :- ParseString(rawValue, lineNumber, key);
            var id := currentClientId.value;
            clients := clients[id := With(Entry(clients, id), key, value)];
          }
      }
      index := index + 1;
    }
    return if sawAuth then Ok(State(currentClientId, sawAuth, clients)) else Err(MissingAuthSection);
  }

  // ---------- loading ----------

  predicate IsBlank(s: string) {
    Trim(s) == []
  }

  /** The one reference of a client, or why it has none. */
  function Reference(id: string, c: Client): Result<SecretRef, ConfigError> {
    match (c.sharedToken, c.sharedTokenEnv)
    case (Some(_), Some(_)) => Err(ConflictingSharedTokenRefs(id))
    case (Some(token), None) => if IsBlank(token) then Err(MissingSharedToken(id)) else Ok(InlinePlaceholder(token))
    case (None, Some(name)) => if IsBlank(name) then Err(MissingSharedToken(id)) else Ok(EnvironmentVariable(name))
    case (None, None) => Err(MissingSharedToken(id))
  }

  /** The clients `ids`, in that order. */
  function Entries(clients: map<string, Client>, ids: seq<string>): Result<Config, ConfigError>
    requires forall id :: id in ids ==> id in clients
  {
    if ids == [] then Ok(Config([], [])) else
    var reference :- Reference(ids[0], clients[ids[0]]);
    After([AllowedClient(ids[0], ids[0])], [SharedToken(ids[0], reference)], Entries(clients, ids[1..]))
  }

  /** A successful rest behind what was collected before it. */
  function After(allowed: seq<AllowedClient>, tokens: seq<SharedToken>, rest: Result<Config, ConfigError>)
    : Result<Config, ConfigError>
  {
    match rest
    case Err(e) => Err(e)
    case Ok(c) => Ok(Config(allowed + c.allowedClients, tokens + c.sharedTokens))
  }

  lemma AfterNothing(rest: Result<Config, ConfigError>)
    ensures After([], [], rest) == rest
  {
    if rest.Ok? {
      assert [] + rest.value.allowedClients == rest.value.allowedClients;
      assert [] + rest.value.sharedTokens == rest.value.sharedTokens;
    }
  }

  lemma AfterBoth(allowed: seq<AllowedClient>, tokens: seq<SharedToken>, a: AllowedClient, t: SharedToken,
                  rest: Result<Config, ConfigError>)
    ensures After(allowed, tokens, After([a], [t], rest)) == After(allowed + [a], tokens + [t], rest)
  {
    if rest.Ok? {
      assert allowed + ([a] + rest.value.allowedClients) == allowed + [a] + rest.value.allowedClients;
      assert tokens + ([t] + rest.value.sharedTokens) == tokens + [t] + rest.value.sharedTokens;
    }
  }

  function Load(lines: seq<string>): Result<Config, ConfigError> {
    var s :- Parse(lines);
    if s.clients == map[] then Err(NoAuthClients) else Entries(s.clients, Sorted(s.clients.Keys))
  }

  method LoadFromStr(input: string) returns (r: Result<Config, ConfigError>)
    ensures r == Load(Lines(input))
  {
    hide Lines, Parse, Reference, Sorted, After;
    var parsed :- ParseAuthClients(input);
    if parsed.clients == map[] {
      return Err(NoAuthClients);
    }
    var ids := Sorted(parsed.clients.Keys);
    var allowed: seq<AllowedClient>, tokens: seq<SharedToken> := [], [];
    var i := 0;
    AfterNothing(Entries(parsed.clients, ids));
    while i < |ids|
      invariant i <= |ids|
      invariant Entries(parsed.clients, ids) == After(allowed, tokens, Entries(parsed.clients, ids[i..]))
    {
      var id, rest := ids[i], Entries(parsed.clients, ids[i + 1..]);
      assert ids[i..][0] == id && ids[i..][1..] == ids[i + 1..];
      AfterFault(allowed, tokens, Reference(id, parsed.clients[id]));
      var secretRef :- Reference(id, parsed.clients[id]);
      AfterBoth(allowed, tokens, AllowedClient(id, id), SharedToken(id, secretRef), rest);
      allowed := allowed + [AllowedClient(id, id)];
      tokens := tokens + [SharedToken(id, secretRef)];
      i := i + 1;
    }
    Collected(allowed, tokens);
    return Ok(Config(allowed, tokens));
  }

  lemma Collected(allowed: seq<AllowedClient>, tokens: seq<SharedToken>)
    ensures After(allowed, tokens, Ok(Config([], []))) == Ok(Config(allowed, tokens))
  {
    assert allowed + [] == allowed && tokens + [] == tokens;
  }

  lemma AfterFault(allowed: seq<AllowedClient>, tokens: seq<SharedToken>, r: Result<SecretRef, ConfigError>)
    ensures r.Err? ==> After(allowed, tokens, Err(r.error)) == Err(r.error)
  {
  }
}
