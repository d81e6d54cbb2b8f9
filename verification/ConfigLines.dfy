/** What one line of an auth configuration is, said of the text itself: white space, comments, tables, assignments. */
module ConfigLines {
  import opened Bytes
  import opened ConfigText
  import opened AuthConfig

  predicate Spaces(s: string) {
    forall i :: 0 <= i < |s| ==> IsSpace(s[i])
  }

  /** Neither end is white space. */
  predicate Unspaced(s: string) {
    s != [] ==> !IsSpace(s[0]) && !IsSpace(s[|s| - 1])
  }

  predicate Without(c: char, s: string) {
    forall i :: 0 <= i < |s| ==> s[i] != c
  }

  lemma WithoutBoth(c: char, a: string, b: string)
    ensures Without(c, a + b) <==> Without(c, a) && Without(c, b)
  {
    if Without(c, a + b) {
      assert forall i :: 0 <= i < |a| ==> a[i] == (a + b)[i];
      assert forall i :: 0 <= i < |b| ==> b[i] == (a + b)[|a| + i];
    }
  }

  // ---------- trimming ----------

  lemma {:induction false} TrimsStart(a: string, s: string)
    requires Spaces(a)
    ensures TrimStart(a + s) == TrimStart(s)
  {
    if a == [] {
      assert a + s == s;
    } else {
      assert (a + s)[1..] == a[1..] + s;
      TrimsStart(a[1..], s);
    }
  }

  lemma {:induction false} TrimsEnd(s: string, b: string)
    requires Spaces(b)
    ensures TrimEnd(s + b) == TrimEnd(s)
  {
    if b == [] {
      assert s + b == s;
    } else {
      assert (s + b)[..|s + b| - 1] == s + b[..|b| - 1];
      TrimsEnd(s, b[..|b| - 1]);
    }
  }

  lemma TrimIs(a: string, s: string, b: string)
    requires Spaces(a) && Spaces(b) && Unspaced(s)
    ensures Trim(a + s + b) == s
  {
    assert a + s + b == a + (s + b);
    TrimsStart(a, s + b);
    if s == [] {
      assert s + b == b + [];
      TrimsStart(b, []);
    } else {
      assert (s + b)[0] == s[0];
      TrimsEnd(s, b);
    }
  }

  lemma TrimIsSelf(s: string)
    requires Unspaced(s)
    ensures Trim(s) == s
  {
    TrimIs([], s, []);
    assert [] + s + [] == s;
  }

  // ---------- comments ----------

  lemma IndexIsEnd(s: string, c: char)
    requires Without(c, s)
    ensures IndexOf(s, c) == |s|
  {
  }

  lemma IndexIsThere(s: string, c: char, rest: string)
    requires Without(c, s)
    ensures IndexOf(s + [c] + rest, c) == |s|
  {
    var t := s + [c] + rest;
    assert t[|s|] == c;
    assert forall i :: 0 <= i < |s| ==> t[i] == s[i];
    FirstIndex(t, c, |s|);
  }

  /** Everything from the first `#` on is ignored. */
  lemma CommentIgnored(s: string, rest: string)
    requires Without('#', s)
    ensures Classify(s + ['#'] + rest) == Classify(s)
  {
    var t := s + ['#'] + rest;
    IndexIsThere(s, '#', rest);
    IndexIsEnd(s, '#');
    assert t[..|s|] == s && s[..|s|] == s;
    hide IndexOf, Trim, Between;
  }

  /** White space around a line is ignored. */
  lemma IndentIgnored(a: string, s: string, b: string)
    requires Spaces(a) && Spaces(b) && Unspaced(s) && Without('#', s)
    ensures Classify(a + s + b) == Classify(s)
  {
    SpacesHoldNo('#', a);
    SpacesHoldNo('#', b);
    WithoutBoth('#', a, s);
    WithoutBoth('#', a + s, b);
    IndexIsEnd(a + s + b, '#');
    IndexIsEnd(s, '#');
    TrimIs(a, s, b);
    TrimIsSelf(s);
    assert (a + s + b)[..|a + s + b|] == a + s + b && s[..|s|] == s;
    hide IndexOf, Trim, Between;
  }

  lemma SpacesHoldNo(c: char, s: string)
    requires Spaces(s) && !IsSpace(c)
    ensures Without(c, s)
  {
    hide IsSpace;
  }

  /** A line of white space, with or without a comment, is nothing. */
  lemma NothingThere(s: string, rest: string)
    requires Spaces(s)
    ensures Classify(s) == Nothing && Classify(s + ['#'] + rest) == Nothing
  {
    SpacesHoldNo('#', s);
    CommentIgnored(s, rest);
    IndentIgnored(s, [], []);
    assert s + [] + [] == s;
    assert Classify([]) == Nothing;
    hide Classify;
  }

  // ---------- what an unindented line without a comment is ----------

  /** The line itself decides, once there is nothing to strip from it. */
  lemma Plain(s: string)
    requires s != [] && Unspaced(s) && Without('#', s)
    ensures Trim(StripComment(s)) == s
  {
    IndexIsEnd(s, '#');
    TrimIsSelf(s);
    assert s[..|s|] == s;
    hide IndexOf, Trim;
  }

  lemma BetweenIs(open: string, s: string, close: string)
    ensures Between(open + s + close, open, close) == Some(s)
  {
    var t := open + s + close;
    assert t[|open|..] == s + close;
    assert (s + close)[|s|..] == close && (s + close)[..|s|] == s;
  }

  lemma Bracketed(name: string)
    requires Without('#', name)
    ensures var line := ['['] + name + [']'];
            line != [] && Unspaced(line) && Without('#', line) && Trim(StripComment(line)) == line
            && Between(line, "[", "]") == Some(name)
  {
    WithoutBoth('#', ['['], name);
    WithoutBoth('#', ['['] + name, [']']);
    BetweenIs("[", name, "]");
    Plain(['['] + name + [']']);
    hide Trim, StripComment, Between;
  }

  const CLIENT_TABLE: string := "auth.clients."

  /** The two tables of the section itself. */
  lemma AuthLines()
    ensures Classify("[auth]") == AuthTable && Classify("[auth.clients]") == AuthTable
  {
    Bracketed("auth");
    Bracketed("auth.clients");
    assert ['['] + "auth" + [']'] == "[auth]";
    assert ['['] + "auth.clients" + [']'] == "[auth.clients]";
    hide Trim, StripComment, Between;
  }

  lemma ClientName(rest: string)
    ensures var name := CLIENT_TABLE + rest;
            && StripPrefix(name, "auth.clients.") == Some(rest) && name != "auth" && name != "auth.clients"
  {
    var name := CLIENT_TABLE + rest;
    assert |CLIENT_TABLE| == 13 && |name| >= 13;
    assert name[13..] == rest;
  }

  /** The table of a client, whatever white space surrounds its id; an id of nothing else is refused. */
  lemma ClientLine(a: string, id: string, b: string)
    requires Spaces(a) && Spaces(b) && Unspaced(id) && Without('#', id)
    ensures Classify(['['] + (CLIENT_TABLE + (a + id + b)) + [']'])
         == if id == [] then UnnamedClientTable else ClientTable(id)
  {
    SpacesHoldNo('#', a);
    SpacesHoldNo('#', b);
    WithoutBoth('#', a, id);
    WithoutBoth('#', a + id, b);
    WithoutBoth('#', CLIENT_TABLE, a + id + b);
    Bracketed(CLIENT_TABLE + (a + id + b));
    TrimIs(a, id, b);
    ClientName(a + id + b);
    hide Trim, StripComment, Between, Unspaced, Spaces, Without, StripPrefix, CLIENT_TABLE;
  }

  /** Any other bracketed name is a table of another section. */
  lemma ForeignLine(name: string)
    requires Without('#', name) && name != "auth" && name != "auth.clients" && !(CLIENT_TABLE <= name)
    ensures Classify(['['] + name + [']']) == ForeignTable
  {
    Bracketed(name);
    hide Trim, StripComment, Between;
  }

  /** A bracket at one end alone makes no table. */
  lemma NoBrackets(line: string)
    requires line != [] && (line[0] != '[' || |line| < 2 || line[|line| - 1] != ']')
    ensures Between(line, "[", "]") == None
  {
  }

  /** A key and a quoted value: the key, and exactly what stands between the outer quotes, whatever that is. */
  lemma AssignmentLine(key: string, value: string)
    requires Unspaced(key) && Without('#', key) && Without('=', key) && (key != [] ==> key[0] != '[')
    requires Without('#', value)
    ensures var line := key + " = \"" + value + "\"";
            && Classify(line).Assignment? && Classify(line).key == key
            && Between(Classify(line).rawValue, "\"", "\"") == Some(value)
  {
    var raw := "\"" + value + "\"";
    var bare := key + " " + ['='] + (" " + raw);
    assert key + " = \"" + value + "\"" == bare;
    WithoutBoth('#', "\"", value);
    WithoutBoth('#', "\"" + value, "\"");
    WithoutBoth('#', " ", raw);
    WithoutBoth('#', key, " ");
    WithoutBoth('#', key + " ", ['=']);
    WithoutBoth('#', key + " " + ['='], " " + raw);
    BetweenIs("\"", value, "\"");
    Split(key, raw, bare);
    hide Classify, Between;
  }

  lemma Split(key: string, raw: string, bare: string)
    requires Unspaced(key) && Without('#', bare) && Without('=', key) && (key != [] ==> key[0] != '[')
    requires bare == key + " " + ['='] + (" " + raw) && raw != [] && Unspaced(raw)
    ensures Classify(bare) == Assignment(key, raw)
  {
    if key == [] {
      var line := [] + ['='] + (" " + raw);
      assert bare == " " + line + [];
      WithoutBoth('#', " ", line);
      assert " " + line == bare;
      TrimIsSelf([]);
      CutAtEquals([], key, raw, line);
      IndentIgnored(" ", line, []);
    } else {
      WithoutBoth('=', key, " ");
      TrimIs([], key, " ");
      assert [] + key + " " == key + " ";
      CutAtEquals(key + " ", key, raw, bare);
    }
  }

  lemma StartsAndEnds(left: string, raw: string, line: string)
    requires line == left + ['='] + (" " + raw) && raw != [] && Unspaced(raw)
    requires left != [] ==> left[0] != '[' && !IsSpace(left[0])
    ensures line != [] && line[0] != '[' && Unspaced(line)
    ensures line[..|left|] == left && line[|left| + 1..] == " " + raw && line[|left|] == '='
  {
    assert line[0] == if left == [] then '=' else left[0];
    assert line[|line| - 1] == raw[|raw| - 1];
  }

  lemma CutAtEquals(left: string, key: string, raw: string, line: string)
    requires Without('=', left) && Trim(left) == key && (left != [] ==> left[0] != '[' && !IsSpace(left[0]))
    requires Without('#', line) && line == left + ['='] + (" " + raw) && raw != [] && Unspaced(raw)
    ensures Classify(line) == Assignment(key, raw) && Unspaced(line)
  {
    StartsAndEnds(left, raw, line);
    Plain(line);
    NoBrackets(line);
    IndexIsThere(left, '=', " " + raw);
    TrimIs(" ", raw, []);
    assert " " + raw + [] == " " + raw;
    hide Trim, StripComment, Between, IndexOf, Without, Unspaced;
  }

  /** Anything else, neither in brackets nor with an equals sign, is no assignment. */
  lemma NotAssigned(line: string)
    requires line != [] && Unspaced(line) && Without('#', line) && Without('=', line)
    requires line[0] != '[' || |line| < 2 || line[|line| - 1] != ']'
    ensures Classify(line) == NotAnAssignment
  {
    Plain(line);
    NoBrackets(line);
    IndexIsEnd(line, '=');
    hide Trim, StripComment, Between, IndexOf;
  }
}
