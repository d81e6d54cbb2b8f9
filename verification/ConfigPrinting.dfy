/** A configuration written out, comments and all, and loaded again. */
module ConfigPrinting {
  import opened Bytes
  import opened ConfigText
  import opened ConfigLines
  import opened AuthConfig
  import opened AuthConfigTheorems
  import opened ConfigBlocks

  /** The key and the value a reference is written as. */
  function KeyOf(r: SecretRef): string {
    match r case InlinePlaceholder(_) => "shared_token" case EnvironmentVariable(_) => "shared_token_env"
  }

  function ValueOf(r: SecretRef): string {
    match r case InlinePlaceholder(token) => token case EnvironmentVariable(name) => name
  }

  /** A comment, the table of a client, and its reference with a comment behind it. */
  function ClientLines(t: SharedToken, note: string): seq<string> {
    ["# " + note,
     "[auth.clients." + t.tokenId + "]",
     KeyOf(t.secretRef) + " = \"" + ValueOf(t.secretRef) + "\"" + " # " + note]
  }

  /** The first `k` clients, one after the other. */
  function ConfigLinesOf(tokens: seq<SharedToken>, notes: seq<string>, k: nat): seq<string>
    requires k <= |tokens| == |notes|
    decreases k
  {
    if k == 0 then [] else ConfigLinesOf(tokens, notes, k - 1) + ClientLines(tokens[k - 1], notes[k - 1])
  }

  /** What can be written on one line without being cut, trimmed or taken for a comment. */
  predicate Writable(t: SharedToken) {
    && t.tokenId != [] && Unspaced(t.tokenId) && Without('#', t.tokenId) && '\n' !in t.tokenId
    && Without('#', ValueOf(t.secretRef)) && '\n' !in ValueOf(t.secretRef) && !IsBlank(ValueOf(t.secretRef))
  }

  // ---------- the lines of one client ----------

  lemma NoteLine(note: string)
    ensures Classify("# " + note) == Nothing
  {
    NothingThere([], " " + note);
    assert [] + ['#'] + (" " + note) == "# " + note;
    hide Classify;
  }

  lemma Regroup<T>(a: seq<T>, b: seq<T>, c: seq<T>, d: seq<T>)
    ensures (a + b) + c + d == a + (b + c) + d
  {
  }

  lemma HeaderText(id: string)
    ensures ['['] + (CLIENT_TABLE + id) + [']'] == "[auth.clients." + id + "]"
  {
    assert ['['] + CLIENT_TABLE == "[auth.clients.";
    hide CLIENT_TABLE;
    Regroup(['['], CLIENT_TABLE, id, "]");
  }

  lemma HeaderLine(id: string)
    requires id != [] && Unspaced(id) && Without('#', id)
    ensures Classify("[auth.clients." + id + "]") == ClientTable(id)
  {
    ClientLine([], id, []);
    assert [] + id + [] == id;
    HeaderText(id);
    hide Classify, CLIENT_TABLE, Unspaced, Without;
  }

  lemma KeysAreBare(r: SecretRef)
    ensures Unspaced(KeyOf(r)) && Without('#', KeyOf(r)) && Without('=', KeyOf(r))
    ensures KeyOf(r) != [] && KeyOf(r)[0] != '['
    ensures IsTokenKey(KeyOf(r))
  {
    assert "shared_token"[0] == 's' && "shared_token"[11] == 'n';
    assert "shared_token_env"[0] == 's' && "shared_token_env"[15] == 'v';
  }

  lemma CommentText(bare: string, note: string)
    ensures bare + " " + ['#'] + (" " + note) == bare + " # " + note
  {
    assert " # " == " " + ['#'] + " ";
  }

  lemma ReferenceLine(r: SecretRef, note: string)
    requires Without('#', ValueOf(r))
    ensures var line := Classify(KeyOf(r) + " = \"" + ValueOf(r) + "\"" + " # " + note);
            line.Assignment? && line.key == KeyOf(r) && Between(line.rawValue, "\"", "\"") == Some(ValueOf(r))
  {
    KeysAreBare(r);
    var bare := KeyOf(r) + " = \"" + ValueOf(r) + "\"";
    AssignmentLine(KeyOf(r), ValueOf(r));
    BareLine(KeyOf(r), ValueOf(r), bare);
    CommentBehind(bare, note);
    hide Classify, Between, Unspaced, KeyOf, ValueOf;
  }

  lemma CommentBehind(bare: string, note: string)
    requires Unspaced(bare) && Without('#', bare) && Without('#', bare + " ")
    ensures Classify(bare + " # " + note) == Classify(bare)
  {
    CommentIgnored(bare + " ", " " + note);
    IndentIgnored([], bare, " ");
    CommentText(bare, note);
    assert [] + bare + " " == bare + " ";
    hide Classify, Unspaced, Without;
  }

  lemma BareLine(key: string, value: string, bare: string)
    requires Unspaced(key) && key != [] && Without('#', key) && Without('#', value)
    requires bare == key + " = \"" + value + "\""
    ensures Unspaced(bare) && Without('#', bare) && Without('#', bare + " ")
  {
    WithoutBoth('#', key, " = \"");
    WithoutBoth('#', key + " = \"", value);
    WithoutBoth('#', key + " = \"" + value, "\"");
    WithoutBoth('#', bare, " ");
    assert bare[0] == key[0] && bare[|bare| - 1] == '\"';
  }

  // ---------- loading them ----------

  function ClientOf(r: SecretRef): Client {
    match r
    case InlinePlaceholder(token) => Client(Some(token), None)
    case EnvironmentVariable(name) => Client(None, Some(name))
  }

  function ClientsUpTo(tokens: seq<SharedToken>, k: nat): map<string, Client>
    requires k <= |tokens|
    decreases k
  {
    if k == 0 then map[] else ClientsUpTo(tokens, k - 1)[tokens[k - 1].tokenId := ClientOf(tokens[k - 1].secretRef)]
  }

  lemma ClientFold(s: State, t: SharedToken, note: string, number: nat)
    requires Writable(t) && t.tokenId !in s.clients
    ensures Fold(s, ClientLines(t, note), number)
         == Ok(State(Some(t.tokenId), true, s.clients[t.tokenId := ClientOf(t.secretRef)]))
  {
    var lines := ClientLines(t, note);
    NoteLine(note);
    HeaderLine(t.tokenId);
    ReferenceLine(t.secretRef, note);
    KeysAreBare(t.secretRef);
    hide Classify, Between, Unspaced, Without, IsBlank;
    var s1 := State(Some(t.tokenId), true, s.clients[t.tokenId := NEW_CLIENT]);
    assert Step(s, lines[0], number) == Ok(s);
    assert Step(s, lines[1], number + 1) == Ok(s1);
    var s2 := State(Some(t.tokenId), true, s.clients[t.tokenId := ClientOf(t.secretRef)]);
    ReferenceStep(s1, t, lines[2], number + 2);
    assert s1.clients[t.tokenId := ClientOf(t.secretRef)] == s2.clients;
    ThreeLines(s, s, s1, s2, lines, number);
  }

  lemma ReferenceStep(s: State, t: SharedToken, line: string, number: nat)
    requires s.current == Some(t.tokenId) && t.tokenId in s.clients && s.clients[t.tokenId] == NEW_CLIENT
    requires IsTokenKey(KeyOf(t.secretRef)) && Classify(line).Assignment? && Classify(line).key == KeyOf(t.secretRef)
    requires Between(Classify(line).rawValue, "\"", "\"") == Some(ValueOf(t.secretRef))
    ensures Step(s, line, number) == Ok(s.(clients := s.clients[t.tokenId := ClientOf(t.secretRef)]))
  {
    hide Classify, Between;
  }

  lemma ThreeLines(s: State, s0: State, s1: State, s2: State, lines: seq<string>, number: nat)
    requires |lines| == 3 && Step(s, lines[0], number) == Ok(s0)
    requires Step(s0, lines[1], number + 1) == Ok(s1) && Step(s1, lines[2], number + 2) == Ok(s2)
    ensures Fold(s, lines, number) == Ok(s2)
  {
    hide Step;
    assert lines[1..][0] == lines[1] && lines[1..][1..] == lines[2..] && lines[2..][0] == lines[2];
    assert lines[2..][1..] == [];
    assert Fold(s1, lines[2..], number + 2) == Fold(s2, [], number + 3);
    assert Fold(s0, lines[1..], number + 1) == Fold(s1, lines[2..], number + 2);
  }

  /** No id is written twice. */
  ghost predicate DistinctIds(tokens: seq<SharedToken>) {
    forall i, j :: 0 <= i < j < |tokens| ==> tokens[i].tokenId != tokens[j].tokenId
  }

  lemma {:induction false} ClientsUpToIs(tokens: seq<SharedToken>, k: nat)
    requires DistinctIds(tokens) && k <= |tokens|
    ensures forall id :: id in ClientsUpTo(tokens, k) <==> exists i :: 0 <= i < k && tokens[i].tokenId == id
    ensures forall i :: 0 <= i < k ==>
              tokens[i].tokenId in ClientsUpTo(tokens, k)
              && ClientsUpTo(tokens, k)[tokens[i].tokenId] == ClientOf(tokens[i].secretRef)
    decreases k
  {
    if k > 0 {
      ClientsUpToIs(tokens, k - 1);
    }
  }

  lemma NextClient(tokens: seq<SharedToken>, notes: seq<string>, k: nat, before: State)
    requires 0 < k <= |tokens| == |notes| && DistinctIds(tokens) && Writable(tokens[k - 1])
    requires Fold(START, ConfigLinesOf(tokens, notes, k - 1), 1) == Ok(before)
    requires before.clients == ClientsUpTo(tokens, k - 1)
    ensures Fold(START, ConfigLinesOf(tokens, notes, k), 1)
         == Ok(State(Some(tokens[k - 1].tokenId), true, ClientsUpTo(tokens, k)))
  {
    var lines, t := ConfigLinesOf(tokens, notes, k - 1), tokens[k - 1];
    ClientsUpToIs(tokens, k - 1);
    FoldConcat(START, lines, ClientLines(t, notes[k - 1]), 1);
    ClientFold(before, t, notes[k - 1], 1 + |lines|);
    hide Fold, Writable, ClientLines, ClientOf;
  }

  lemma {:induction false} PrintedFold(tokens: seq<SharedToken>, notes: seq<string>, k: nat)
    requires k <= |tokens| == |notes| && DistinctIds(tokens)
    requires forall i :: 0 <= i < |tokens| ==> Writable(tokens[i])
    ensures match Fold(START, ConfigLinesOf(tokens, notes, k), 1)
            case Ok(s) => s.clients == ClientsUpTo(tokens, k) && (s.sawAuth <==> k > 0)
            case Err(_) => false
    decreases k
  {
    hide Writable, ClientLines, ClientOf, Step;
    if k > 0 {
      PrintedFold(tokens, notes, k - 1);
      NextClient(tokens, notes, k, Fold(START, ConfigLinesOf(tokens, notes, k - 1), 1).value);
    }
  }

  // ---------- and back ----------

  /** In ascending order of ids, the ids are the sorted ones. */
  lemma {:induction false} AscendingIsSorted(q: seq<string>, s: set<string>)
    requires forall k :: k in q <==> k in s
    requires forall i, j :: 0 <= i < j < |q| ==> Before(q[i], q[j])
    ensures q == Sorted(s)
    decreases |q|
  {
    hide Before, Sorted;
    if q == [] {
      assert s == {};
      SortedNothing();
    } else {
      assert q[0] in s;
      SortedStep(s);
      OneLeast(s);
      forall k | k in s
        ensures k == q[0] || Before(q[0], k)
      {
        var i :| 0 <= i < |q| && q[i] == k;
      }
      assert Least(s, q[0]);
      TailIs(q, s);
      AscendingIsSorted(q[1..], s - {q[0]});
      assert q == [q[0]] + q[1..] && Sorted(s) == [Sorted(s)[0]] + Sorted(s)[1..];
    }
  }

  lemma SortedNothing()
    ensures Sorted({}) == []
  {
  }

  lemma TailIs(q: seq<string>, s: set<string>)
    requires q != [] && forall k :: k in q <==> k in s
    requires forall i, j :: 0 <= i < j < |q| ==> Before(q[i], q[j])
    ensures forall k :: k in q[1..] <==> k in s - {q[0]}
  {
    hide Before;
    forall k
      ensures k in q[1..] <==> k in s - {q[0]}
    {
      BeforeIsStrict(q[0], q[0]);
      if k in q[1..] {
        var i :| 0 <= i < |q[1..]| && q[1..][i] == k;
        assert q[i + 1] == k;
        assert Before(q[0], q[i + 1]);
      }
      if k in s - {q[0]} {
        var i :| 0 <= i < |q| && q[i] == k;
        assert i > 0 && q[1..][i - 1] == k;
      }
    }
  }

  lemma ReferenceIsOwn(t: SharedToken)
    requires Writable(t)
    ensures Reference(t.tokenId, ClientOf(t.secretRef)) == Ok(t.secretRef)
  {
    hide IsBlank, Unspaced, Without;
  }

  /** The ids of the tokens of a configuration. */
  function Ids(c: Config): (ids: seq<string>)
    ensures |ids| == |c.sharedTokens| && forall i :: 0 <= i < |ids| ==> ids[i] == c.sharedTokens[i].tokenId
  {
    seq(|c.sharedTokens|, i requires 0 <= i < |c.sharedTokens| => c.sharedTokens[i].tokenId)
  }

  /** Two results built from the same clients in the same order are the same. */
  lemma BuiltOnce(clients: map<string, Client>, ids: seq<string>, c: Config, d: Config)
    requires (forall id :: id in ids ==> id in clients) && BuiltFrom(clients, ids, c) && BuiltFrom(clients, ids, d)
    ensures c == d
  {
    hide Reference;
    forall i | 0 <= i < |ids|
      ensures c.allowedClients[i] == d.allowedClients[i] && c.sharedTokens[i] == d.sharedTokens[i]
    {
      assert Reference(ids[i], clients[ids[i]]) == Ok(c.sharedTokens[i].secretRef);
    }
    assert c.allowedClients == d.allowedClients && c.sharedTokens == d.sharedTokens;
  }

  /** A comment that is one line. */
  predicate OneLine(note: string) {
    '\n' !in note && (note != [] ==> note[|note| - 1] != '\r')
  }

  /** A configuration that can be written out, with a comment for every client. */
  ghost predicate Printable(c: Config, notes: seq<string>) {
    && Paired(c) && |notes| == |c.sharedTokens| > 0
    && (forall i :: 0 <= i < |notes| ==> Writable(c.sharedTokens[i]) && OneLine(notes[i]))
  }

  function Printed(c: Config, notes: seq<string>): seq<string>
    requires |notes| == |c.sharedTokens|
  {
    ConfigLinesOf(c.sharedTokens, notes, |notes|)
  }

  lemma PairedIds(c: Config)
    requires Paired(c)
    ensures forall i, j :: 0 <= i < j < |Ids(c)| ==> Before(Ids(c)[i], Ids(c)[j])
    ensures DistinctIds(c.sharedTokens)
  {
    hide Before;
    forall i, j | 0 <= i < j < |c.sharedTokens|
      ensures Before(Ids(c)[i], Ids(c)[j]) && c.sharedTokens[i].tokenId != c.sharedTokens[j].tokenId
    {
      assert Before(c.allowedClients[i].clientId, c.allowedClients[j].clientId);
      BeforeIsStrict(Ids(c)[i], Ids(c)[i]);
    }
  }

  lemma PrintedIsBuilt(c: Config)
    requires Paired(c) && forall i :: 0 <= i < |c.sharedTokens| ==> Writable(c.sharedTokens[i])
    ensures var clients := ClientsUpTo(c.sharedTokens, |c.sharedTokens|);
            && (forall id :: id in Ids(c) <==> id in clients)
            && BuiltFrom(clients, Ids(c), c)
            && forall id :: id in clients ==> Reference(id, clients[id]).Ok?
  {
    hide Before, Writable, Reference, ClientOf;
    var clients := ClientsUpTo(c.sharedTokens, |c.sharedTokens|);
    PairedIds(c);
    ClientsUpToIs(c.sharedTokens, |c.sharedTokens|);
    forall i | 0 <= i < |c.sharedTokens|
      ensures Reference(Ids(c)[i], clients[Ids(c)[i]]) == Ok(c.sharedTokens[i].secretRef)
    {
      ReferenceIsOwn(c.sharedTokens[i]);
    }
    forall id
      ensures id in Ids(c) <==> id in clients
    {
      if id in clients {
        var i :| 0 <= i < |c.sharedTokens| && c.sharedTokens[i].tokenId == id;
        assert Ids(c)[i] == id;
      }
    }
  }

  /** Loading what was printed, line by line, comments included, gives the configuration back. */
  lemma LoadsPrinted(c: Config, notes: seq<string>)
    requires Printable(c, notes)
    ensures Load(Printed(c, notes)) == Ok(c)
  {
    var n := |notes|;
    var clients := ClientsUpTo(c.sharedTokens, n);
    PairedIds(c);
    PrintedFold(c.sharedTokens, notes, n);
    PrintedIsBuilt(c);
    AscendingIsSorted(Ids(c), clients.Keys);
    EntriesSucceedIff(clients);
    EntriesOutcome(clients, Ids(c));
    NotEmpty(c);
    hide Fold, Writable, ClientLines, ConfigLinesOf, ClientsUpTo, Entries, Sorted, Reference, BuiltFrom, Ids, Before;
    BuiltOnce(clients, Ids(c), c, Entries(clients, Ids(c)).value);
  }

  lemma NotEmpty(c: Config)
    requires c.sharedTokens != []
    ensures ClientsUpTo(c.sharedTokens, |c.sharedTokens|) != map[]
  {
    assert c.sharedTokens[|c.sharedTokens| - 1].tokenId in ClientsUpTo(c.sharedTokens, |c.sharedTokens|);
  }

  lemma ClientLinesAreLines(t: SharedToken, note: string)
    requires Writable(t) && OneLine(note)
    ensures forall i :: 0 <= i < 3 ==> IsLine(ClientLines(t, note)[i])
  {
    hide IsBlank, Unspaced, Without;
    LineFrom("# ", note);
    LineFrom("[auth.clients." + t.tokenId, "]");
    LineFrom(KeyOf(t.secretRef) + " = \"" + ValueOf(t.secretRef) + "\"" + " # ", note);
  }

  lemma LineFrom(start: string, end: string)
    requires start != [] && '\n' !in start && OneLine(end) && (end == [] ==> start[|start| - 1] != '\r')
    ensures IsLine(start + end)
  {
  }

  lemma {:induction false} PrintedAreLines(tokens: seq<SharedToken>, notes: seq<string>, k: nat)
    requires k <= |tokens| == |notes|
    requires forall i :: 0 <= i < |tokens| ==> Writable(tokens[i]) && OneLine(notes[i])
    ensures forall i :: 0 <= i < |ConfigLinesOf(tokens, notes, k)| ==> IsLine(ConfigLinesOf(tokens, notes, k)[i])
    decreases k
  {
    if k > 0 {
      PrintedAreLines(tokens, notes, k - 1);
      ClientLinesAreLines(tokens[k - 1], notes[k - 1]);
      hide Writable, OneLine, IsLine, KeyOf, ValueOf;
    }
  }

  /** The same from the text of a whole file. */
  lemma LoadsPrintedText(c: Config, notes: seq<string>)
    requires Printable(c, notes)
    ensures Load(Lines(Unlines(Printed(c, notes)))) == Ok(c)
  {
    PrintedAreLines(c.sharedTokens, notes, |notes|);
    LinesOfUnlines(Printed(c, notes));
    LoadsPrinted(c, notes);
    hide Lines, Unlines, Load, ConfigLinesOf, Writable, OneLine, IsLine;
  }
}
