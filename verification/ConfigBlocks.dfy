/** The configuration seen as tables: their order, foreign tables and blank lines do not change what is loaded. */
module ConfigBlocks {
  import opened Bytes
  import opened ConfigText
  import opened AuthConfig

  /** A table header and the lines under it. */
  datatype Block = Block(header: string, body: seq<string>)

  predicate IsTable(l: Line) {
    l.AuthTable? || l.ClientTable? || l.UnnamedClientTable? || l.ForeignTable?
  }

  predicate TableFree(body: seq<string>) {
    forall i :: 0 <= i < |body| ==> !IsTable(Classify(body[i]))
  }

  predicate Formed(b: Block) {
    IsTable(Classify(b.header)) && TableFree(b.body)
  }

  function ClientId(b: Block): Option<string> {
    match Classify(b.header) case ClientTable(id) => Some(id) case _ => None
  }

  function BlockLines(b: Block): seq<string> {
    [b.header] + b.body
  }

  function LinesOf(bs: seq<Block>): seq<string> {
    if bs == [] then [] else BlockLines(bs[0]) + LinesOf(bs[1..])
  }

  /** A line without a table that the parser takes, in a client's table or outside of one. */
  predicate LineOk(raw: string, governed: bool) {
    match Classify(raw)
    case NotAnAssignment => false
    case Assignment(key, rawValue) => governed && IsTokenKey(key) ==> Between(rawValue, "\"", "\"").Some?
    case _ => true
  }

  predicate BodyOk(body: seq<string>, governed: bool) {
    forall i :: 0 <= i < |body| ==> LineOk(body[i], governed)
  }

  predicate BlockOk(b: Block) {
    !Classify(b.header).UnnamedClientTable? && BodyOk(b.body, ClientId(b).Some?)
  }

  /** What one line under a client's table does to the client. */
  function FillLine(c: Client, raw: string): Client {
    match Classify(raw)
    case Assignment(key, rawValue) =>
      var value := Between(rawValue, "\"", "\"");
      if IsTokenKey(key) && value.Some? then With(c, key, value.value) else c
    case _ => c
  }

  function Fill(c: Client, body: seq<string>): Client
    decreases |body|
  {
    if body == [] then c else Fill(FillLine(c, body[0]), body[1..])
  }

  lemma {:induction false} FoldConcat(s: State, a: seq<string>, b: seq<string>, n: nat)
    ensures Fold(s, a + b, n) == match Fold(s, a, n) case Err(e) => Err(e) case Ok(s') => Fold(s', b, n + |a|)
    decreases |a|
  {
    hide Step;
    if a == [] {
      assert a + b == b;
    } else {
      assert (a + b)[0] == a[0] && (a + b)[1..] == a[1..] + b;
      match Step(s, a[0], n)
      case Err(_) =>
      case Ok(s') => FoldConcat(s', a[1..], b, n + 1);
    }
  }

  ghost predicate Anchored(s: State) {
    s.current.Some? ==> s.current.value in s.clients
  }

  lemma BodyStep(s: State, raw: string, n: nat)
    requires Anchored(s) && !IsTable(Classify(raw))
    ensures Step(s, raw, n).Ok? <==> LineOk(raw, s.current.Some?)
    ensures Step(s, raw, n).Ok? ==>
              Step(s, raw, n).value ==
              if s.current.None? then s
              else s.(clients := s.clients[s.current.value := FillLine(s.clients[s.current.value], raw)])
  {
    hide Classify, Between;
  }

  /** Lines without a table touch nothing but the client whose table they stand in. */
  lemma {:induction false} BodyFold(s: State, body: seq<string>, n: nat)
    requires Anchored(s) && TableFree(body)
    ensures Fold(s, body, n).Ok? <==> BodyOk(body, s.current.Some?)
    ensures Fold(s, body, n).Ok? ==>
              Fold(s, body, n).value ==
              if s.current.None? then s
              else s.(clients := s.clients[s.current.value := Fill(s.clients[s.current.value], body)])
    decreases |body|
  {
    hide Classify, Step, LineOk, FillLine;
    if body != [] {
      BodyStep(s, body[0], n);
      if LineOk(body[0], s.current.Some?) {
        var s' := Step(s, body[0], n).value;
        BodyFold(s', body[1..], n + 1);
        assert BodyOk(body, s.current.Some?) <==> BodyOk(body[1..], s.current.Some?);
      }
    }
  }

  /** A whole block. */
  lemma BlockFold(s: State, b: Block, n: nat)
    requires Formed(b)
    ensures Fold(s, BlockLines(b), n).Ok? <==> BlockOk(b)
    ensures Fold(s, BlockLines(b), n).Ok? ==>
              var s' := Fold(s, BlockLines(b), n).value;
              && Anchored(s')
              && (s'.sawAuth <==> s.sawAuth || !Classify(b.header).ForeignTable?)
              && s'.clients == match ClientId(b)
                               case Some(id) => s.clients[id := Fill(Entry(s.clients, id), b.body)]
                               case None => s.clients
  {
    hide Classify, TableFree, LineOk, FillLine;
    assert BlockLines(b)[0] == b.header && BlockLines(b)[1..] == b.body;
    if Step(s, b.header, n).Ok? {
      BodyFold(Step(s, b.header, n).value, b.body, n + 1);
    }
  }

  // ---------- several blocks ----------

  /** No client has two tables. */
  ghost predicate Distinct(bs: seq<Block>) {
    forall i, j :: 0 <= i < j < |bs| && ClientId(bs[i]).Some? ==> ClientId(bs[i]) != ClientId(bs[j])
  }

  ghost predicate AllFormed(bs: seq<Block>) {
    forall i :: 0 <= i < |bs| ==> Formed(bs[i])
  }

  ghost predicate AllOk(bs: seq<Block>) {
    forall i :: 0 <= i < |bs| ==> BlockOk(bs[i])
  }

  /** The clients of the tables. */
  function ClientsOf(bs: seq<Block>): map<string, Client> {
    if bs == [] then map[] else
    var rest := ClientsOf(bs[1..]);
    match ClientId(bs[0]) case Some(id) => rest[id := Fill(NEW_CLIENT, bs[0].body)] case None => rest
  }

  lemma {:induction false} ClientsOfIs(bs: seq<Block>)
    requires Distinct(bs)
    ensures forall id :: id in ClientsOf(bs) <==> exists b :: b in bs && ClientId(b) == Some(id)
    ensures forall b :: b in bs && ClientId(b).Some? ==> ClientsOf(bs)[ClientId(b).value] == Fill(NEW_CLIENT, b.body)
    decreases |bs|
  {
    hide ClientId, Fill;
    if bs != [] {
      var rest := bs[1..];
      assert Distinct(rest);
      ClientsOfIs(rest);
      assert bs == [bs[0]] + rest;
      forall b | b in bs
        ensures b == bs[0] || (b in rest && (ClientId(b).Some? ==> ClientId(b) != ClientId(bs[0])))
      {
        var i :| 0 <= i < |bs| && bs[i] == b;
        assert i > 0 ==> rest[i - 1] == b;
      }
    }
  }

  lemma {:induction false} BlocksFold(s: State, bs: seq<Block>, n: nat)
    requires AllFormed(bs) && Distinct(bs)
    requires forall i :: 0 <= i < |bs| && ClientId(bs[i]).Some? ==> ClientId(bs[i]).value !in s.clients
    ensures Fold(s, LinesOf(bs), n).Ok? <==> AllOk(bs)
    ensures Fold(s, LinesOf(bs), n).Ok? ==>
              var s' := Fold(s, LinesOf(bs), n).value;
              && s'.clients == s.clients + ClientsOf(bs)
              && (s'.sawAuth <==> s.sawAuth || exists i :: 0 <= i < |bs| && !Classify(bs[i].header).ForeignTable?)
    decreases |bs|
  {
    hide Fold, Classify, Formed, BlockOk, ClientId, Fill;
    if bs == [] {
      NothingToFold(s, n);
    } else {
      var b, rest := bs[0], bs[1..];
      FoldConcat(s, BlockLines(b), LinesOf(rest), n);
      BlockFold(s, b, n);
      assert AllOk(bs) <==> BlockOk(b) && AllOk(rest);
      if BlockOk(b) {
        var s1 := Fold(s, BlockLines(b), n).value;
        assert Distinct(rest);
        BlocksFold(s1, rest, n + |BlockLines(b)|);
        assert bs == [b] + rest;
        MergedLater(s.clients, b, rest);
      }
    }
  }

  lemma NothingToFold(s: State, n: nat)
    ensures Fold(s, LinesOf([]), n) == Ok(s) && s.clients + ClientsOf([]) == s.clients
  {
  }

  lemma FreshId(b: Block, rest: seq<Block>)
    requires Distinct([b] + rest) && ClientId(b).Some?
    ensures Distinct(rest) && ClientId(b).value !in ClientsOf(rest)
  {
    hide Fill, ClientId;
    var all := [b] + rest;
    assert Distinct(rest) by {
      forall i, j | 0 <= i < j < |rest| && ClientId(rest[i]).Some?
        ensures ClientId(rest[i]) != ClientId(rest[j])
      {
        assert all[i + 1] == rest[i] && all[j + 1] == rest[j];
      }
    }
    ClientsOfIs(rest);
    forall other | other in rest
      ensures ClientId(other) != ClientId(b)
    {
      var i :| 0 <= i < |rest| && rest[i] == other;
      assert all[0] == b && all[i + 1] == other;
    }
  }

  lemma MergedLater(clients: map<string, Client>, b: Block, rest: seq<Block>)
    requires Distinct([b] + rest)
    requires ClientId(b).Some? ==> ClientId(b).value !in clients
    ensures ClientId(b).None? ==> clients + ClientsOf([b] + rest) == clients + ClientsOf(rest)
    ensures ClientId(b).Some? ==>
              var id := ClientId(b).value;
              (clients[id := Fill(Entry(clients, id), b.body)] + ClientsOf(rest) == clients + ClientsOf([b] + rest))
  {
    hide Fill, ClientId;
    var all := [b] + rest;
    assert all[0] == b && all[1..] == rest;
    if ClientId(b).Some? {
      FreshId(b, rest);
    }
  }

  // ---------- what does not matter ----------

  /** The lines of a body that are not blank or comments. */
  function Significant(body: seq<string>): seq<string> {
    if body == [] then [] else (if Classify(body[0]).Nothing? then [] else [body[0]]) + Significant(body[1..])
  }

  lemma {:induction false} FillSignificant(c: Client, body: seq<string>)
    ensures Fill(c, Significant(body)) == Fill(c, body)
    decreases |body|
  {
    if body != [] {
      var rest := Significant(body[1..]);
      FillSignificant(FillLine(c, body[0]), body[1..]);
      if !Classify(body[0]).Nothing? {
        assert ([body[0]] + rest)[1..] == rest;
      } else {
        assert [] + rest == rest;
      }
      hide Classify;
    }
  }

  lemma {:induction false} OkSignificant(body: seq<string>, governed: bool)
    ensures BodyOk(Significant(body), governed) <==> BodyOk(body, governed)
    decreases |body|
  {
    if body != [] {
      var first, rest := [body[0]], Significant(body[1..]);
      OkSignificant(body[1..], governed);
      assert body == first + body[1..];
      BothOk(first, body[1..], governed);
      BothOk(first, rest, governed);
      assert Classify(body[0]).Nothing? ==> Significant(body) == rest && BodyOk(first, governed);
      hide Classify;
    }
  }

  lemma BothOk(a: seq<string>, b: seq<string>, governed: bool)
    ensures BodyOk(a + b, governed) <==> BodyOk(a, governed) && BodyOk(b, governed)
  {
    hide LineOk;
    if BodyOk(a + b, governed) {
      assert forall i :: 0 <= i < |a| ==> a[i] == (a + b)[i];
      assert forall i :: 0 <= i < |b| ==> b[i] == (a + b)[|a| + i];
    }
  }

  /** Two blocks give the same client the same lines, blank lines and comments apart. */
  predicate SameClient(b: Block, b': Block) {
    ClientId(b).Some? && ClientId(b) == ClientId(b') && Significant(b.body) == Significant(b'.body)
  }

  /** Every client's table in `bs` is also in `bs'`. */
  ghost predicate ClientsKept(bs: seq<Block>, bs': seq<Block>) {
    forall b :: b in bs && ClientId(b).Some? ==> exists b' :: b' in bs' && SameClient(b, b')
  }

  lemma {:induction false} ClientsIncluded(bs: seq<Block>, bs': seq<Block>)
    requires Distinct(bs) && Distinct(bs') && ClientsKept(bs, bs')
    ensures forall id :: id in ClientsOf(bs) ==> id in ClientsOf(bs') && ClientsOf(bs')[id] == ClientsOf(bs)[id]
  {
    hide ClientId, Fill, Significant;
    ClientsOfIs(bs);
    ClientsOfIs(bs');
    forall id | id in ClientsOf(bs)
      ensures id in ClientsOf(bs') && ClientsOf(bs')[id] == ClientsOf(bs)[id]
    {
      var b :| b in bs && ClientId(b) == Some(id);
      var b' :| b' in bs' && SameClient(b, b');
      FillSignificant(NEW_CLIENT, b.body);
      FillSignificant(NEW_CLIENT, b'.body);
    }
  }

  lemma {:induction false} ClientsEqual(bs: seq<Block>, bs': seq<Block>)
    requires Distinct(bs) && Distinct(bs') && ClientsKept(bs, bs') && ClientsKept(bs', bs)
    ensures ClientsOf(bs) == ClientsOf(bs')
  {
    ClientsIncluded(bs, bs');
    ClientsIncluded(bs', bs);
  }

  lemma {:induction false} ClientsStayOk(bs: seq<Block>, bs': seq<Block>)
    requires AllOk(bs) && ClientsKept(bs', bs)
    requires forall b' :: b' in bs' && ClientId(b').None? ==> BlockOk(b')
    ensures AllOk(bs')
  {
    hide Significant, BodyOk;
    forall i | 0 <= i < |bs'|
      ensures BlockOk(bs'[i])
    {
      var b' := bs'[i];
      if ClientId(b').Some? {
        var b :| b in bs && SameClient(b', b);
        var j :| 0 <= j < |bs| && bs[j] == b;
        OkSignificant(b.body, true);
        OkSignificant(b'.body, true);
      }
    }
  }

  /** A file: lines before the first table, and tables. */
  function File(before: seq<string>, bs: seq<Block>): seq<string> {
    before + LinesOf(bs)
  }

  /** Every list of lines is such a file. */
  lemma {:induction false} EveryFile(lines: seq<string>) returns (before: seq<string>, bs: seq<Block>)
    ensures TableFree(before) && AllFormed(bs) && lines == File(before, bs)
    decreases |lines|
  {
    hide Classify, IsTable;
    if lines == [] {
      before, bs := [], [];
    } else {
      before, bs := EveryFile(lines[1..]);
      assert lines == [lines[0]] + lines[1..];
      if IsTable(Classify(lines[0])) {
        var b := Block(lines[0], before);
        assert ([b] + bs)[1..] == bs;
        before, bs := [], [b] + bs;
      } else {
        before := [lines[0]] + before;
      }
    }
  }

  /** Parsing a file of tables, each client with at most one. */
  lemma {:induction false} ParseFile(before: seq<string>, bs: seq<Block>)
    requires TableFree(before) && AllFormed(bs) && Distinct(bs)
    ensures Fold(START, File(before, bs), 1).Ok? <==> BodyOk(before, false) && AllOk(bs)
    ensures Fold(START, File(before, bs), 1).Ok? ==>
              var s := Fold(START, File(before, bs), 1).value;
              s.clients == ClientsOf(bs) && (s.clients != map[] ==> s.sawAuth)
  {
    hide Fold, TableFree, AllOk, Distinct, Formed;
    FoldConcat(START, before, LinesOf(bs), 1);
    BodyFold(START, before, 1);
    BlocksFold(START, bs, 1 + |before|);
    SomeAuth(bs);
  }

  lemma ClientIsNotForeign(b: Block)
    requires ClientId(b).Some?
    ensures !Classify(b.header).ForeignTable?
  {
  }

  lemma {:induction false} SomeAuth(bs: seq<Block>)
    requires Distinct(bs)
    ensures ClientsOf(bs) != map[] ==> exists i :: 0 <= i < |bs| && !Classify(bs[i].header).ForeignTable?
    ensures map[] + ClientsOf(bs) == ClientsOf(bs)
  {
    hide Classify, ClientId, Fill, ClientsOf;
    ClientsOfIs(bs);
    if ClientsOf(bs) != map[] {
      var id :| id in ClientsOf(bs);
      var b :| b in bs && ClientId(b) == Some(id);
      ClientIsNotForeign(b);
      var i :| 0 <= i < |bs| && bs[i] == b;
      assert !Classify(bs[i].header).ForeignTable?;
    }
  }

  /**
   * The order of tables, tables of other sections, blank lines and comments are irrelevant: two files that give the
   * same clients the same lines load alike, as long as nothing in the second is malformed outside the clients' tables.
   */
  lemma OnlyClientTablesMatter(before: seq<string>, bs: seq<Block>, before': seq<string>, bs': seq<Block>)
    requires TableFree(before) && AllFormed(bs) && Distinct(bs) && Load(File(before, bs)).Ok?
    requires TableFree(before') && AllFormed(bs') && Distinct(bs')
    requires ClientsKept(bs, bs') && ClientsKept(bs', bs)
    requires BodyOk(before', false) && forall b' :: b' in bs' && ClientId(b').None? ==> BlockOk(b')
    ensures Load(File(before', bs')) == Load(File(before, bs))
  {
    ParseFile(before, bs);
    ParseFile(before', bs');
    ClientsEqual(bs, bs');
    hide Fold, TableFree, Formed, Distinct, ClientsKept, BodyOk, Entries, Sorted, File;
    ClientsStayOk(bs, bs');
  }

  /** In particular any permutation of the tables of a file that loads. */
  lemma {:induction false} TableOrderIrrelevant(before: seq<string>, bs: seq<Block>, bs': seq<Block>)
    requires TableFree(before) && AllFormed(bs) && Distinct(bs) && Load(File(before, bs)).Ok?
    requires Distinct(bs') && multiset(bs) == multiset(bs')
    ensures Load(File(before, bs')) == Load(File(before, bs))
  {
    forall b
      ensures b in bs <==> b in bs'
    {
      assert b in bs <==> b in multiset(bs);
      assert b in bs' <==> b in multiset(bs');
    }
    SameBlocks(before, bs, bs');
  }

  lemma SameBlocks(before: seq<string>, bs: seq<Block>, bs': seq<Block>)
    requires TableFree(before) && AllFormed(bs) && Distinct(bs) && Load(File(before, bs)).Ok?
    requires Distinct(bs') && forall b :: b in bs <==> b in bs'
    ensures Load(File(before, bs')) == Load(File(before, bs))
  {
    ParseFile(before, bs);
    hide Load, Formed, TableFree, BodyOk, BlockOk, Significant, Fold, ClientId;
    assert AllFormed(bs') && AllOk(bs') by {
      forall i | 0 <= i < |bs'|
        ensures Formed(bs'[i]) && BlockOk(bs'[i])
      {
        assert bs'[i] in bs;
        var j :| 0 <= j < |bs| && bs[j] == bs'[i];
      }
    }
    OnlyClientTablesMatter(before, bs, before, bs');
  }
}
