/** Text as the configuration loader cuts it: lines, comments, trimming, prefixes and ordering. */
module ConfigText {
  import opened Bytes

  /** The position of the first `c`, or the length. */
  function IndexOf(s: string, c: char): (i: nat)
    ensures i <= |s| && (i < |s| ==> s[i] == c)
    ensures forall j :: 0 <= j < i ==> s[j] != c
  {
    if s == [] || s[0] == c then 0 else 1 + IndexOf(s[1..], c)
  }

  function WithoutCR(s: string): string {
    if s != [] && s[|s| - 1] == '\r' then s[..|s| - 1] else s
  }

  /** `input.lines()`: a final line without a line feed is kept as it is, an empty one is not a line. */
  function Lines(input: string): seq<string>
    decreases |input|
  {
    if input == [] then [] else
    var k := IndexOf(input, '\n');
    if k == |input| then [input] else [WithoutCR(input[..k])] + Lines(input[k + 1..])
  }

  function Unlines(lines: seq<string>): string {
    if lines == [] then [] else lines[0] + ['\n'] + Unlines(lines[1..])
  }

  predicate IsLine(s: string) {
    '\n' !in s && (s != [] ==> s[|s| - 1] != '\r')
  }

  lemma FirstIndex(s: string, c: char, i: nat)
    requires i < |s| && s[i] == c && forall j :: 0 <= j < i ==> s[j] != c
    ensures IndexOf(s, c) == i
  {
  }

  lemma CutFirst(first: string, rest: string)
    requires '\n' !in first
    ensures var text := first + ['\n'] + rest;
            IndexOf(text, '\n') == |first| && text[..|first|] == first && text[|first| + 1..] == rest
  {
    var text := first + ['\n'] + rest;
    forall j | 0 <= j < |first|
      ensures text[j] != '\n'
    {
      assert text[j] == first[j] && first[j] in first;
    }
    FirstIndex(text, '\n', |first|);
  }

  /** Joining lines with line feeds and cutting them again gives the lines back. */
  lemma {:induction false} LinesOfUnlines(lines: seq<string>)
    requires forall i :: 0 <= i < |lines| ==> IsLine(lines[i])
    ensures Lines(Unlines(lines)) == lines
  {
    if lines != [] {
      assert IsLine(lines[0]);
      CutFirst(lines[0], Unlines(lines[1..]));
      hide IndexOf;
      LinesOfUnlines(lines[1..]);
    }
  }

  /** Either line ending is cut off; a last line without one is kept as it is. */
  lemma LinesCut(first: string, rest: string)
    requires IsLine(first)
    ensures Lines(first + ['\n'] + rest) == [first] + Lines(rest)
    ensures Lines(first + ['\r', '\n'] + rest) == [first] + Lines(rest)
    ensures Lines(first) == if first == [] then [] else [first]
  {
    CutFirst(first, rest);
    CutFirst(first + ['\r'], rest);
    assert first + ['\r', '\n'] + rest == first + ['\r'] + ['\n'] + rest;
    assert (first + ['\r'])[..|first|] == first;
    NoFeed(first);
    hide IndexOf;
  }

  lemma NoFeed(s: string)
    requires '\n' !in s
    ensures IndexOf(s, '\n') == |s|
  {
  }

  /** Unicode white space. */
  predicate IsSpace(c: char) {
    var n := c as int;
    || 0x09 <= n <= 0x0D || n == 0x20 || n == 0x85 || n == 0xA0 || n == 0x1680 || 0x2000 <= n <= 0x200A
    || n == 0x2028 || n == 0x2029 || n == 0x202F || n == 0x205F || n == 0x3000
  }

  function TrimStart(s: string): string {
    if s != [] && IsSpace(s[0]) then TrimStart(s[1..]) else s
  }

  function TrimEnd(s: string): string {
    if s != [] && IsSpace(s[|s| - 1]) then TrimEnd(s[..|s| - 1]) else s
  }

  function Trim(s: string): string {
    TrimEnd(TrimStart(s))
  }

  function StripComment(line: string): string {
    line[..IndexOf(line, '#')]
  }

  function StripPrefix(s: string, prefix: string): Option<string> {
    if prefix <= s then Some(s[|prefix|..]) else None
  }

  function StripSuffix(s: string, suffix: string): Option<string> {
    if |suffix| <= |s| && s[|s| - |suffix|..] == suffix then Some(s[..|s| - |suffix|]) else None
  }

  /** What stands between an opening and a closing character, both there and not the same one. */
  function Between(s: string, open: string, close: string): Option<string> {
    match StripPrefix(s, open)
    case None => None
    case Some(rest) => StripSuffix(rest, close)
  }

  // ---------- order ----------

  /** The order of strings by their characters, which is also the order of their UTF-8 bytes. */
  predicate Before(a: string, b: string) {
    b != [] && (a == [] || a[0] < b[0] || (a[0] == b[0] && Before(a[1..], b[1..])))
  }

  lemma {:induction false} BeforeIsStrict(a: string, b: string)
    ensures !(Before(a, b) && Before(b, a))
    ensures a != b ==> Before(a, b) || Before(b, a)
  {
    if a != [] && b != [] {
      BeforeIsStrict(a[1..], b[1..]);
      if a[0] == b[0] && a[1..] == b[1..] {
        assert a == [a[0]] + a[1..] && b == [b[0]] + b[1..];
      }
    }
  }

  lemma {:induction false} BeforeIsTransitive(a: string, b: string, c: string)
    requires Before(a, b) && Before(b, c)
    ensures Before(a, c)
  {
    if a != [] && a[0] == b[0] == c[0] {
      BeforeIsTransitive(a[1..], b[1..], c[1..]);
    }
  }

  /** One string is before another when it is the beginning of it, or smaller where they first differ. */
  lemma {:induction false} BeforeIff(a: string, b: string)
    ensures Before(a, b) <==>
              || a < b
              || exists i: nat :: i < |a| && i < |b| && a[..i] == b[..i] && a[i] < b[i]
  {
    if a != [] && b != [] && a[0] == b[0] {
      BeforeIff(a[1..], b[1..]);
      assert a == [a[0]] + a[1..] && b == [b[0]] + b[1..];
      Differ(a, b);
    } else if a != [] && b != [] {
      assert a[0] < b[0] ==> a[..0] == b[..0] && a[0] < b[0];
    }
  }

  lemma Differ(a: string, b: string)
    requires a != [] && b != [] && a[0] == b[0]
    ensures (exists i: nat :: i < |a| && i < |b| && a[..i] == b[..i] && a[i] < b[i])
       <==> (exists j: nat :: j < |a| - 1 && j < |b| - 1 && a[1..][..j] == b[1..][..j] && a[1..][j] < b[1..][j])
  {
    if i: nat :| i < |a| && i < |b| && a[..i] == b[..i] && a[i] < b[i] {
      assert i > 0 && a[1..][..i - 1] == a[..i][1..] && b[1..][..i - 1] == b[..i][1..];
    }
    if j: nat :| j < |a| - 1 && j < |b| - 1 && a[1..][..j] == b[1..][..j] && a[1..][j] < b[1..][j] {
      assert a[..j + 1] == [a[0]] + a[1..][..j] && b[..j + 1] == [b[0]] + b[1..][..j];
    }
  }

  predicate Least(s: set<string>, k: string) {
    k in s && forall o :: o in s ==> o == k || Before(k, o)
  }

  lemma {:induction false} HasLeast(s: set<string>)
    requires s != {}
    ensures exists k :: Least(s, k)
  {
    var x :| x in s;
    var rest := s - {x};
    assert forall o :: o in s ==> o == x || o in rest;
    if rest == {} {
      assert Least(s, x);
    } else {
      HasLeast(rest);
      var k :| Least(rest, k);
      BeforeIsStrict(x, k);
      if Before(k, x) {
        assert Least(s, k);
      } else {
        assert Before(x, k);
        forall o | o in s
          ensures o == x || Before(x, o)
        {
          if o != k && o != x {
            BeforeIsTransitive(x, k, o);
          }
        }
        assert Least(s, x);
      }
    }
  }

  lemma OneLeast(s: set<string>)
    ensures forall k, l :: Least(s, k) && Least(s, l) ==> k == l
  {
    forall k, l | Least(s, k) && Least(s, l)
      ensures k == l
    {
      BeforeIsStrict(k, l);
    }
  }

  /** The keys of a sorted map, in its iteration order. */
  function Sorted(s: set<string>): (q: seq<string>)
    ensures |q| == |s| && forall k :: k in q <==> k in s
    decreases |s|
  {
    if s == {} then [] else
    HasLeast(s);
    OneLeast(s);
    var k :| Least(s, k);
    [k] + Sorted(s - {k})
  }

  lemma SortedStep(s: set<string>)
    requires s != {}
    ensures Sorted(s) != [] && Least(s, Sorted(s)[0]) && Sorted(s)[1..] == Sorted(s - {Sorted(s)[0]})
  {
    HasLeast(s);
    OneLeast(s);
    hide Before;
    var k := Sorted(s)[0];
    assert Sorted(s) == [k] + Sorted(s - {k});
  }

  lemma {:induction false} SortedIsAscending(s: set<string>, i: nat, j: nat)
    requires i < j < |Sorted(s)|
    ensures Before(Sorted(s)[i], Sorted(s)[j])
    decreases |s|
  {
    hide Before;
    SortedStep(s);
    hide Sorted;
    var k := Sorted(s)[0];
    var rest := Sorted(s - {k});
    assert Sorted(s)[j] == rest[j - 1];
    if i > 0 {
      assert Sorted(s)[i] == rest[i - 1];
      SortedIsAscending(s - {k}, i - 1, j - 1);
    } else {
      assert rest[j - 1] in s - {k};
    }
  }
}
