/**
The field grammar the two wire formats are written in.

A payload layout is a list of fields. `ParseUpTo` is what a cursor that reads the fields from left to
right does; `PrintUpTo` is what appending them from left to right produces. The theorems at the end
say that the two are exact inverses, that a printed payload is never a proper prefix of another of
the same layout, and that a cut payload is always reported as cut.
*/
module Grammar {
  import opened Bytes

  /** Enumerations carried as small integers on the wire. */
  datatype CodeKind =
    | ReasonCode | CodecCode | NoticeCode
    | ReadModeCode | SourceCode | NoFrameCode | HandoffErrorCode

  function CodeWidth(kind: CodeKind): nat {
    match kind
    case ReasonCode | CodecCode | NoticeCode => 2
    case _ => 1
  }

  predicate KnownCode(kind: CodeKind, n: nat) {
    match kind
    case ReasonCode => n <= 5
    case CodecCode => n == 1
    case NoticeCode => 1 <= n <= 5
    case ReadModeCode => 1 <= n <= 4
    case SourceCode => n <= 2
    case NoFrameCode => 1 <= n <= 3
    case HandoffErrorCode => 1 <= n <= 6
  }

  datatype Field =
    | Int(width: nat)        // little-endian unsigned integer
    | Str                    // u16 byte length, then UTF-8 bytes
    | Flag                   // one byte, 0 or 1
    | Zeros                  // three reserved bytes, all zero
    | Code(kind: CodeKind)   // enumeration code
    | Blob                   // u32 byte length, then raw bytes
    | Words(count: nat)      // consecutive u64 values
    | Opt(field: Field)      // presence tag 0 or 1, then the field when present

  datatype Value =
    | Num(n: nat)
    | Chars(text: Text)
    | Bit(on: bool)
    | Reserved
    | Raw(bytes: seq<byte>)
    | Series(words: seq<nat>)
    | Absent
    | Present(value: Value)

  /** Why reading a field stopped. `at` is the cursor, `need` the bytes asked for there. */
  datatype Fault =
    | Short(at: nat, need: nat)
    | BadUtf8
    | BadFlag(b: byte)
    | BadTag(tag: byte)
    | BadZeros(zeros: seq<byte>)
    | BadCode(kind: CodeKind, code: nat)

  /** The outcome of one or more reads, and where the cursor stands after them. */
  datatype Parsed<+T> = Parsed(result: Result<T, Fault>, next: nat)

  /** `v` is a value of field `f` that the field's length prefixes and widths can carry. */
  predicate Fits(f: Field, v: Value) {
    match f
    case Int(w) => v.Num? && v.n < Pow256(w)
    case Str => v.Chars? && |v.text| <= U16_MAX
    case Flag => v.Bit?
    case Zeros => v.Reserved?
    case Code(kind) => v.Num? && KnownCode(kind, v.n)
    case Blob => v.Raw? && |v.bytes| <= U32_MAX
    case Words(n) => v.Series? && |v.words| == n && forall i :: 0 <= i < n ==> v.words[i] < Pow256(8)
    case Opt(g) => v.Absent? || (v.Present? && Fits(g, v.value))
  }

  function AsU32(v: Value): u32
    requires Fits(Int(4), v)
  {
    Pow256Values();
    v.n
  }

  function AsU64(v: Value): u64
    requires Fits(Int(8), v)
  {
    Pow256Values();
    v.n
  }

  function Print(f: Field, v: Value): seq<byte>
    requires Fits(f, v)
  {
    match f
    case Int(w) => ToLE(v.n, w)
    case Str => ToLE(|v.text|, 2) + v.text
    case Flag => [if v.on then 1 else 0]
    case Zeros => [0, 0, 0]
    case Code(kind) => ToLE(v.n, CodeWidth(kind))
    case Blob => ToLE(|v.bytes|, 4) + v.bytes
    case Words(_) => PrintWords(v.words)
    case Opt(g) => if v.Absent? then [0] else [1] + Print(g, v.value)
  }

  function IntAt(p: seq<byte>, o: nat, width: nat): nat
    requires o + width <= |p|
  {
    FromLE(p[o..o + width])
  }

  /** A byte string behind a length prefix of `width` bytes. */
  function ParseSized(p: seq<byte>, o: nat, width: nat): (r: Parsed<seq<byte>>)
    requires o <= |p|
    ensures o <= r.next <= |p|
  {
    if o + width > |p| then Parsed(Err(Short(o, width)), o) else
    var n := IntAt(p, o, width);
    if o + width + n > |p| then Parsed(Err(Short(o + width, n)), o + width) else
    Parsed(Ok(p[o + width..o + width + n]), o + width + n)
  }

  function PrintWords(ws: seq<nat>): seq<byte> {
    if ws == [] then [] else ToLE(ws[0], 8) + PrintWords(ws[1..])
  }

  function ParseWords(p: seq<byte>, o: nat, count: nat): (r: Parsed<seq<nat>>)
    requires o <= |p|
    ensures o <= r.next <= |p|
    decreases count
  {
    if count == 0 then Parsed(Ok([]), o) else
    if o + 8 > |p| then Parsed(Err(Short(o, 8)), o) else
    var rest := ParseWords(p, o + 8, count - 1);
    Parsed(if rest.result.Ok? then Ok([IntAt(p, o, 8)] + rest.result.value) else rest.result, rest.next)
  }

  function ParseField(f: Field, p: seq<byte>, o: nat): (r: Parsed<Value>)
    requires o <= |p|
    ensures o <= r.next <= |p|
    decreases f
  {
    match f
    case Int(w) =>
      if o + w <= |p| then Parsed(Ok(Num(IntAt(p, o, w))), o + w) else Parsed(Err(Short(o, w)), o)
    case Str =>
      var r := ParseSized(p, o, 2);
      Parsed(if r.result.Err? then Err(r.result.error)
             else if ValidUtf8(r.result.value) then Ok(Chars(r.result.value)) else Err(BadUtf8), r.next)
    case Flag =>
      if o + 1 > |p| then Parsed(Err(Short(o, 1)), o) else
      Parsed(if p[o] == 0 then Ok(Bit(false)) else if p[o] == 1 then Ok(Bit(true)) else Err(BadFlag(p[o])), o + 1)
    case Zeros =>
      if o + 3 > |p| then Parsed(Err(Short(o, 3)), o) else
      Parsed(if p[o..o + 3] == [0, 0, 0] then Ok(Reserved) else Err(BadZeros(p[o..o + 3])), o + 3)
    case Code(kind) =>
      var w := CodeWidth(kind);
      if o + w > |p| then Parsed(Err(Short(o, w)), o) else
      var n := IntAt(p, o, w);
      Parsed(if KnownCode(kind, n) then Ok(Num(n)) else Err(BadCode(kind, n)), o + w)
    case Blob =>
      var r := ParseSized(p, o, 4);
      Parsed(if r.result.Err? then Err(r.result.error) else Ok(Raw(r.result.value)), r.next)
    case Words(n) =>
      var r := ParseWords(p, o, n);
      Parsed(if r.result.Err? then Err(r.result.error) else Ok(Series(r.result.value)), r.next)
    case Opt(g) =>
      if o + 1 > |p| then Parsed(Err(Short(o, 1)), o) else
      if p[o] == 0 then Parsed(Ok(Absent), o + 1) else
      if p[o] != 1 then Parsed(Err(BadTag(p[o])), o + 1) else
      var inner := ParseField(g, p, o + 1);
      Parsed(if inner.result.Ok? then Ok(Present(inner.result.value)) else inner.result, inner.next)
  }

  // ---------- one field ----------

  lemma IntBound(p: seq<byte>, o: nat, width: nat)
    requires o + width <= |p|
    ensures IntAt(p, o, width) < Pow256(width)
    ensures ToLE(IntAt(p, o, width), width) == p[o..o + width]
  {
    ToFromLE(p[o..o + width]);
  }

  lemma Joined(p: seq<byte>, a: nat, b: nat, c: nat)
    requires a <= b <= c <= |p|
    ensures p[a..c] == p[a..b] + p[b..c]
  {
  }

  lemma {:induction false} SizedRoundTrip(p: seq<byte>, o: nat, width: nat, s: seq<byte>)
    requires |s| < Pow256(width) && o + width + |s| <= |p|
    requires p[o..o + width + |s|] == ToLE(|s|, width) + s
    ensures ParseSized(p, o, width) == Parsed(Ok(s), o + width + |s|)
  {
    var t := p[o..o + width + |s|];
    FromToLE(|s|, width);
    assert p[o..o + width] == t[..width];
    assert p[o + width..o + width + |s|] == t[width..];
  }

  lemma SizedExact(p: seq<byte>, o: nat, width: nat)
    requires o <= |p| && ParseSized(p, o, width).result.Ok?
    ensures var r := ParseSized(p, o, width);
            |r.result.value| < Pow256(width) && p[o..r.next] == ToLE(|r.result.value|, width) + r.result.value
  {
    var r := ParseSized(p, o, width);
    IntBound(p, o, width);
    Joined(p, o, o + width, r.next);
  }

  lemma {:induction false} SizedCut(p: seq<byte>, o: nat, width: nat, s: seq<byte>)
    requires |s| < Pow256(width) && o <= |p| < o + width + |s|
    requires p[o..] == (ToLE(|s|, width) + s)[..|p| - o]
    ensures ParseSized(p, o, width).result.Err? && ParseSized(p, o, width).result.error.Short?
  {
    if o + width <= |p| {
      FromToLE(|s|, width);
      assert p[o..o + width] == p[o..][..width] == ToLE(|s|, width);
    }
  }

  lemma {:induction false} WordsRoundTrip(p: seq<byte>, o: nat, ws: seq<nat>)
    requires forall i :: 0 <= i < |ws| ==> ws[i] < Pow256(8)
    requires o + |PrintWords(ws)| <= |p| && p[o..o + |PrintWords(ws)|] == PrintWords(ws)
    ensures ParseWords(p, o, |ws|) == Parsed(Ok(ws), o + |PrintWords(ws)|)
    decreases |ws|
  {
    if ws != [] {
      var s, rest := PrintWords(ws), PrintWords(ws[1..]);
      assert p[o..o + 8] == p[o..o + |s|][..8] == ToLE(ws[0], 8);
      assert p[o + 8..o + 8 + |rest|] == p[o..o + |s|][8..] == rest;
      FromToLE(ws[0], 8);
      WordsRoundTrip(p, o + 8, ws[1..]);
      assert ws == [ws[0]] + ws[1..];
    }
  }

  lemma {:induction false} WordsExact(p: seq<byte>, o: nat, count: nat)
    requires o <= |p| && ParseWords(p, o, count).result.Ok?
    ensures var r := ParseWords(p, o, count);
            && Fits(Words(count), Series(r.result.value))
            && p[o..r.next] == PrintWords(r.result.value)
    decreases count
  {
    if count > 0 {
      var r := ParseWords(p, o, count);
      IntBound(p, o, 8);
      WordsExact(p, o + 8, count - 1);
      assert r.result.value[1..] == ParseWords(p, o + 8, count - 1).result.value;
      Joined(p, o, o + 8, r.next);
    }
  }

  lemma {:induction false} WordsCut(p: seq<byte>, o: nat, ws: seq<nat>)
    requires o <= |p| < o + |PrintWords(ws)|
    ensures ParseWords(p, o, |ws|).result.Err? && ParseWords(p, o, |ws|).result.error.Short?
    decreases |ws|
  {
    if o + 8 <= |p| {
      WordsCut(p, o + 8, ws[1..]);
    }
  }

  lemma IntRoundTrip(p: seq<byte>, o: nat, width: nat, n: nat)
    requires n < Pow256(width) && o + width <= |p| && p[o..o + width] == ToLE(n, width)
    ensures IntAt(p, o, width) == n
  {
    FromToLE(n, width);
  }

  lemma BareRoundTrip(f: Field, v: Value, p: seq<byte>, o: nat)
    requires !f.Opt? && Fits(f, v)
    requires o + |Print(f, v)| <= |p| && p[o..o + |Print(f, v)|] == Print(f, v)
    ensures ParseField(f, p, o) == Parsed(Ok(v), o + |Print(f, v)|)
  {
    Pow256Values();
    match f
    case Int(w) =>
      IntRoundTrip(p, o, w, v.n);
    case Str =>
      SizedRoundTrip(p, o, 2, v.text);
    case Flag =>
      assert p[o] == p[o..o + 1][0];
    case Zeros =>
    case Code(kind) =>
      IntRoundTrip(p, o, CodeWidth(kind), v.n);
    case Blob =>
      SizedRoundTrip(p, o, 4, v.bytes);
    case Words(_) =>
      WordsRoundTrip(p, o, v.words);
  }

  /** Reading back what was printed gives the value and stops exactly after it. */
  lemma {:induction false} PrintThenParse(f: Field, v: Value, p: seq<byte>, o: nat)
    requires Fits(f, v)
    requires o + |Print(f, v)| <= |p| && p[o..o + |Print(f, v)|] == Print(f, v)
    ensures ParseField(f, p, o) == Parsed(Ok(v), o + |Print(f, v)|)
    decreases f
  {
    if f.Opt? {
      var s := Print(f, v);
      assert p[o] == p[o..o + |s|][0];
      if v.Present? {
        assert p[o + 1..o + |s|] == p[o..o + |s|][1..] == Print(f.field, v.value);
        PrintThenParse(f.field, v.value, p, o + 1);
      }
    } else {
      BareRoundTrip(f, v, p, o);
    }
  }

  lemma BareExact(f: Field, p: seq<byte>, o: nat)
    requires !f.Opt? && o <= |p| && ParseField(f, p, o).result.Ok?
    ensures var r := ParseField(f, p, o);
            Fits(f, r.result.value) && p[o..r.next] == Print(f, r.result.value)
  {
    Pow256Values();
    match f
    case Int(w) =>
      IntBound(p, o, w);
    case Str =>
      SizedExact(p, o, 2);
    case Flag =>
    case Zeros =>
    case Code(kind) =>
      IntBound(p, o, CodeWidth(kind));
    case Blob =>
      SizedExact(p, o, 4);
    case Words(n) =>
      WordsExact(p, o, n);
  }

  lemma PresentExact(f: Field, p: seq<byte>, o: nat)
    requires f.Opt? && o < |p| && p[o] == 1 && ParseField(f.field, p, o + 1).result.Ok?
    requires var r := ParseField(f.field, p, o + 1);
             Fits(f.field, r.result.value) && p[o + 1..r.next] == Print(f.field, r.result.value)
    ensures var r := ParseField(f, p, o);
            r.result.Ok? && Fits(f, r.result.value) && p[o..r.next] == Print(f, r.result.value)
  {
    Joined(p, o, o + 1, ParseField(f, p, o).next);
  }

  lemma AbsentExact(f: Field, p: seq<byte>, o: nat)
    requires f.Opt? && o < |p| && p[o] == 0
    ensures ParseField(f, p, o) == Parsed(Ok(Absent), o + 1) && p[o..o + 1] == Print(f, Absent)
  {
  }

  /** What was read successfully is exactly the printed form of the value read. */
  lemma {:induction false} ParseThenPrint(f: Field, p: seq<byte>, o: nat)
    requires o <= |p| && ParseField(f, p, o).result.Ok?
    ensures var r := ParseField(f, p, o);
            Fits(f, r.result.value) && p[o..r.next] == Print(f, r.result.value)
    decreases f
  {
    if !f.Opt? {
      BareExact(f, p, o);
    } else if p[o] == 1 {
      ParseThenPrint(f.field, p, o + 1);
      hide Fits, Print;
      PresentExact(f, p, o);
    } else {
      AbsentExact(f, p, o);
    }
  }

  /** A field that is cut before its end is reported as too short. */
  lemma {:induction false} CutField(f: Field, v: Value, p: seq<byte>, o: nat)
    requires Fits(f, v) && o <= |p| < o + |Print(f, v)|
    requires p[o..] == Print(f, v)[..|p| - o]
    ensures ParseField(f, p, o).result.Err? && ParseField(f, p, o).result.error.Short?
    decreases f
  {
    match f
    case Str =>
      Pow256Values();
      SizedCut(p, o, 2, v.text);
    case Blob =>
      Pow256Values();
      SizedCut(p, o, 4, v.bytes);
    case Words(_) =>
      WordsCut(p, o, v.words);
    case Opt(g) =>
      if o + 1 <= |p| {
        assert p[o] == p[o..][0];
        assert v.Present?;
        assert p[o + 1..] == p[o..][1..] == Print(g, v.value)[..|p| - (o + 1)];
        CutField(g, v.value, p, o + 1);
      }
    case _ =>
  }

  // ---------- a whole layout ----------

  predicate FitAll(fs: seq<Field>, vs: seq<Value>) {
    |vs| == |fs| && forall i :: 0 <= i < |fs| ==> Fits(fs[i], vs[i])
  }

  /** The bytes of the first `k` fields. */
  function PrintUpTo(fs: seq<Field>, vs: seq<Value>, k: nat): seq<byte>
    requires FitAll(fs, vs) && k <= |fs|
    decreases k
  {
    if k == 0 then [] else PrintUpTo(fs, vs, k - 1) + Print(fs[k - 1], vs[k - 1])
  }

  function PrintAll(fs: seq<Field>, vs: seq<Value>): seq<byte>
    requires FitAll(fs, vs)
  {
    PrintUpTo(fs, vs, |fs|)
  }

  /** Reading the first `k` fields; the first failing field ends the reading. */
  function ParseUpTo(fs: seq<Field>, k: nat, p: seq<byte>): (r: Parsed<seq<Value>>)
    requires k <= |fs|
    ensures r.next <= |p|
    ensures r.result.Ok? ==> |r.result.value| == k
    decreases k
  {
    if k == 0 then Parsed(Ok([]), 0) else
    var before := ParseUpTo(fs, k - 1, p);
    if before.result.Err? then before else
    var r := ParseField(fs[k - 1], p, before.next);
    Parsed(if r.result.Ok? then Ok(before.result.value + [r.result.value]) else Err(r.result.error), r.next)
  }

  function ParseAll(fs: seq<Field>, p: seq<byte>): Parsed<seq<Value>> {
    ParseUpTo(fs, |fs|, p)
  }

  lemma StartsWithBoth(a: seq<byte>, b: seq<byte>, p: seq<byte>)
    requires a + b <= p
    ensures a <= p && |a| + |b| <= |p| && p[|a|..|a| + |b|] == b
  {
    assert p[..|a| + |b|] == a + b;
  }

  lemma {:induction false} PrintThenParseUpTo(fs: seq<Field>, vs: seq<Value>, k: nat, p: seq<byte>)
    requires FitAll(fs, vs) && k <= |fs|
    requires PrintUpTo(fs, vs, k) <= p
    ensures ParseUpTo(fs, k, p) == Parsed(Ok(vs[..k]), |PrintUpTo(fs, vs, k)|)
    decreases k
  {
    if k > 0 {
      var before, s := PrintUpTo(fs, vs, k - 1), Print(fs[k - 1], vs[k - 1]);
      hide ParseField, Print, Fits;
      StartsWithBoth(before, s, p);
      PrintThenParseUpTo(fs, vs, k - 1, p);
      PrintThenParse(fs[k - 1], vs[k - 1], p, |before|);
      hide FitAll;
      OneMore(vs, k);
    }
  }

  lemma OneMore<T>(s: seq<T>, k: nat)
    requires 0 < k <= |s|
    ensures s[..k] == s[..k - 1] + [s[k - 1]]
  {
  }

  lemma {:induction false} ParseThenPrintUpTo(fs: seq<Field>, k: nat, p: seq<byte>)
    requires k <= |fs| && ParseUpTo(fs, k, p).result.Ok?
    ensures var r := ParseUpTo(fs, k, p);
            FitAll(fs[..k], r.result.value) && p[..r.next] == PrintAll(fs[..k], r.result.value)
    decreases k
  {
    if k > 0 {
      var before, r := ParseUpTo(fs, k - 1, p), ParseUpTo(fs, k, p);
      var vs, v := before.result.value, r.result.value[k - 1];
      ParseThenPrintUpTo(fs, k - 1, p);
      ParseThenPrint(fs[k - 1], p, before.next);
      hide ParseField, Print, Fits;
      assert fs[..k] == fs[..k - 1] + [fs[k - 1]];
      PrintSnoc(fs[..k - 1], vs, fs[k - 1], v);
      Joined(p, 0, before.next, r.next);
    }
  }

  lemma PrintSnoc(fs: seq<Field>, vs: seq<Value>, f: Field, v: Value)
    requires FitAll(fs, vs) && Fits(f, v)
    ensures FitAll(fs + [f], vs + [v])
    ensures PrintAll(fs + [f], vs + [v]) == PrintAll(fs, vs) + Print(f, v)
  {
    PrintPrefix(fs, vs, fs + [f], vs + [v], |fs|);
  }

  lemma {:induction false} PrintPrefix(fs: seq<Field>, vs: seq<Value>, gs: seq<Field>, ws: seq<Value>, k: nat)
    requires FitAll(fs, vs) && FitAll(gs, ws) && k <= |fs| && fs <= gs && vs <= ws
    ensures PrintUpTo(fs, vs, k) == PrintUpTo(gs, ws, k)
    decreases k
  {
    if k > 0 {
      PrintPrefix(fs, vs, gs, ws, k - 1);
    }
  }

  /** Printing then parsing: every value list that fits comes back, with nothing left over. */
  lemma RoundTrip(fs: seq<Field>, vs: seq<Value>)
    requires FitAll(fs, vs)
    ensures ParseAll(fs, PrintAll(fs, vs)) == Parsed(Ok(vs), |PrintAll(fs, vs)|)
  {
    PrintThenParseUpTo(fs, vs, |fs|, PrintAll(fs, vs));
    assert vs[..|fs|] == vs;
  }

  /** Exactness: a payload is read to its end exactly when it is the printed form of the values read. */
  lemma Exact(fs: seq<Field>, p: seq<byte>)
    requires ParseAll(fs, p).result.Ok? && ParseAll(fs, p).next == |p|
    ensures FitAll(fs, ParseAll(fs, p).result.value)
    ensures PrintAll(fs, ParseAll(fs, p).result.value) == p
  {
    ParseThenPrintUpTo(fs, |fs|, p);
    assert fs[..|fs|] == fs && p[..|p|] == p;
  }

  /** Every strict prefix of a printed payload is reported as too short. */
  lemma {:induction false} CutUpTo(fs: seq<Field>, vs: seq<Value>, k: nat, p: seq<byte>)
    requires FitAll(fs, vs) && k <= |fs|
    requires p < PrintUpTo(fs, vs, k)
    ensures ParseUpTo(fs, k, p).result.Err? && ParseUpTo(fs, k, p).result.error.Short?
    decreases k
  {
    assert k > 0;
    var before, s := PrintUpTo(fs, vs, k - 1), Print(fs[k - 1], vs[k - 1]);
    if |p| < |before| {
      assert p == PrintUpTo(fs, vs, k)[..|p|] == before[..|p|];
      CutUpTo(fs, vs, k - 1, p);
    } else {
      assert p == (before + s)[..|p|];
      assert before <= p && p[|before|..] == s[..|p| - |before|];
      PrintThenParseUpTo(fs, vs, k - 1, p);
      CutField(fs[k - 1], vs[k - 1], p, |before|);
    }
  }

  /** Every extension of a printed payload leaves exactly the extra bytes unread. */
  lemma Extended(fs: seq<Field>, vs: seq<Value>, extra: seq<byte>)
    requires FitAll(fs, vs)
    ensures ParseAll(fs, PrintAll(fs, vs) + extra) == Parsed(Ok(vs), |PrintAll(fs, vs)|)
  {
    PrintThenParseUpTo(fs, vs, |fs|, PrintAll(fs, vs) + extra);
    assert vs[..|fs|] == vs;
  }

  // ---------- a layout, field by field ----------

  /** The first `k` pieces, one after the other. */
  function Concat(parts: seq<seq<byte>>, k: nat): seq<byte>
    requires k <= |parts|
    decreases k
  {
    if k == 0 then [] else Concat(parts, k - 1) + parts[k - 1]
  }

  /** Field `f` carries `v` in exactly these bytes. */
  predicate PrintsAs(f: Field, v: Value, bytes: seq<byte>) {
    Fits(f, v) && Print(f, v) == bytes
  }

  lemma {:induction false} PrintsInParts(fs: seq<Field>, vs: seq<Value>, parts: seq<seq<byte>>)
    requires |fs| == |vs| == |parts|
    requires forall i :: 0 <= i < |fs| ==> PrintsAs(fs[i], vs[i], parts[i])
    ensures FitAll(fs, vs) && PrintAll(fs, vs) == Concat(parts, |parts|)
  {
    forall i | 0 <= i < |fs|
      ensures Fits(fs[i], vs[i])
    {
      assert PrintsAs(fs[i], vs[i], parts[i]);
    }
    PrintsUpTo(fs, vs, parts, |fs|);
  }

  lemma {:induction false} PrintsUpTo(fs: seq<Field>, vs: seq<Value>, parts: seq<seq<byte>>, k: nat)
    requires |fs| == |vs| == |parts| && FitAll(fs, vs) && k <= |fs|
    requires forall i :: 0 <= i < |fs| ==> PrintsAs(fs[i], vs[i], parts[i])
    ensures PrintUpTo(fs, vs, k) == Concat(parts, k)
    decreases k
  {
    if k > 0 {
      PrintsUpTo(fs, vs, parts, k - 1);
      assert PrintsAs(fs[k - 1], vs[k - 1], parts[k - 1]);
      hide Print, Fits, FitAll;
    }
  }

  // ---------- one read of a layout ----------

  /** Reading on never changes a fault or a value already there. */
  lemma {:induction false} ReadsOn(fs: seq<Field>, j: nat, k: nat, p: seq<byte>)
    requires j <= k <= |fs|
    ensures ParseUpTo(fs, j, p).result.Err? ==> ParseUpTo(fs, k, p) == ParseUpTo(fs, j, p)
    ensures ParseUpTo(fs, k, p).result.Ok? ==>
              ParseUpTo(fs, j, p).result.Ok? && ParseUpTo(fs, j, p).result.value <= ParseUpTo(fs, k, p).result.value
    decreases k
  {
    if j < k {
      ReadsOn(fs, j, k - 1, p);
    }
  }

  /** A failing read decides the outcome of the whole layout; a succeeding one fixes its next value. */
  lemma {:induction false} NextRead(fs: seq<Field>, k: nat, p: seq<byte>)
    requires k < |fs| && ParseUpTo(fs, k, p).result.Ok?
    ensures var s, whole := ParseField(fs[k], p, ParseUpTo(fs, k, p).next), ParseAll(fs, p).result;
            if s.result.Err? then whole == Err(s.result.error)
            else
              && ParseUpTo(fs, k + 1, p).result.Ok? && ParseUpTo(fs, k + 1, p).next == s.next
              && (whole.Ok? ==> k < |whole.value| && whole.value[k] == s.result.value)
  {
    hide ParseField;
    ReadsOn(fs, k + 1, |fs|, p);
    if ParseAll(fs, p).result.Ok? {
      assert ParseUpTo(fs, k + 1, p).result.value[k] == ParseAll(fs, p).result.value[..k + 1][k];
    }
  }

  // ---------- malformed fields ----------

  /** Bytes no value of the field starts with, however they go on, and the fault they are reported as. */
  ghost predicate Malformed(f: Field, bad: seq<byte>, fault: Fault) {
    match f
    case Flag => bad != [] && bad[0] > 1 && fault == BadFlag(bad[0])
    case Opt(_) => bad != [] && bad[0] > 1 && fault == BadTag(bad[0])
    case Zeros => |bad| >= 3 && bad[..3] != [0, 0, 0] && fault == BadZeros(bad[..3])
    case Code(kind) =>
      && |bad| >= CodeWidth(kind) && !KnownCode(kind, FromLE(bad[..CodeWidth(kind)]))
      && fault == BadCode(kind, FromLE(bad[..CodeWidth(kind)]))
    case Str =>
      && |bad| >= 2 && |bad| >= 2 + FromLE(bad[..2]) && !ValidUtf8(bad[2..2 + FromLE(bad[..2])])
      && fault == BadUtf8
    case _ => false
  }

  lemma Behind(before: seq<byte>, bad: seq<byte>, i: nat, j: nat)
    requires i <= j <= |bad|
    ensures (before + bad)[|before| + i..|before| + j] == bad[i..j]
  {
  }

  lemma UnreadableText(p: seq<byte>, o: nat, n: nat)
    requires o + 2 <= |p| && n == FromLE(p[o..o + 2]) && o + 2 + n <= |p| && !ValidUtf8(p[o + 2..o + 2 + n])
    ensures ParseField(Str, p, o).result == Err(BadUtf8)
  {
    hide FromLE, ValidUtf8;
  }

  lemma MalformedText(bad: seq<byte>, before: seq<byte>)
    requires Malformed(Str, bad, BadUtf8)
    ensures ParseField(Str, before + bad, |before|).result == Err(BadUtf8)
  {
    var n := FromLE(bad[..2]);
    hide FromLE, ValidUtf8, ParseField;
    Behind(before, bad, 0, 2);
    Behind(before, bad, 2, 2 + n);
    UnreadableText(before + bad, |before|, n);
  }

  lemma UnreadableCode(p: seq<byte>, o: nat, kind: CodeKind)
    requires o + CodeWidth(kind) <= |p| && !KnownCode(kind, FromLE(p[o..o + CodeWidth(kind)]))
    ensures ParseField(Code(kind), p, o).result == Err(BadCode(kind, FromLE(p[o..o + CodeWidth(kind)])))
  {
    hide FromLE, KnownCode, CodeWidth;
  }

  lemma MalformedCode(kind: CodeKind, bad: seq<byte>, fault: Fault, before: seq<byte>)
    requires Malformed(Code(kind), bad, fault)
    ensures ParseField(Code(kind), before + bad, |before|).result == Err(fault)
  {
    hide FromLE, KnownCode, ParseField, CodeWidth;
    Behind(before, bad, 0, CodeWidth(kind));
    UnreadableCode(before + bad, |before|, kind);
  }

  lemma MalformedField(f: Field, bad: seq<byte>, fault: Fault, before: seq<byte>)
    requires Malformed(f, bad, fault)
    ensures ParseField(f, before + bad, |before|).result == Err(fault)
  {
    var p, o := before + bad, |before|;
    match f
    case Str =>
      MalformedText(bad, before);
    case Code(kind) =>
      MalformedCode(kind, bad, fault, before);
    case Zeros =>
      assert p[o..o + 3] == bad[..3];
    case _ =>
  }

  /** The first malformed field decides the outcome, whatever precedes and follows it. */
  lemma {:induction false} FirstMalformed(fs: seq<Field>, vs: seq<Value>, k: nat, bad: seq<byte>, fault: Fault)
    requires FitAll(fs, vs) && k < |fs| && Malformed(fs[k], bad, fault)
    ensures ParseAll(fs, PrintUpTo(fs, vs, k) + bad).result == Err(fault)
  {
    var before := PrintUpTo(fs, vs, k);
    MalformedField(fs[k], bad, fault, before);
    PrintThenParseUpTo(fs, vs, k, before + bad);
    NextRead(fs, k, before + bad);
    hide ParseField, Malformed, FitAll, Print;
  }

  // ---------- sizes ----------

  /** The printed length of one field. */
  function Size(f: Field, v: Value): (n: nat)
    requires Fits(f, v)
    ensures n == |Print(f, v)|
  {
    match f
    case Int(w) => w
    case Str => 2 + |v.text|
    case Flag => 1
    case Zeros => 3
    case Code(kind) => CodeWidth(kind)
    case Blob => 4 + |v.bytes|
    case Words(n) =>
      WordsSize(v.words);
      8 * n
    case Opt(g) => if v.Absent? then 1 else 1 + Size(g, v.value)
  }

  /** The printed length of the first `k` fields. */
  function SizeUpTo(fs: seq<Field>, vs: seq<Value>, k: nat): (n: nat)
    requires FitAll(fs, vs) && k <= |fs|
    ensures n == |PrintUpTo(fs, vs, k)|
    decreases k
  {
    if k == 0 then 0 else SizeUpTo(fs, vs, k - 1) + Size(fs[k - 1], vs[k - 1])
  }

  lemma {:induction false} WordsSize(ws: seq<nat>)
    ensures |PrintWords(ws)| == 8 * |ws|
    decreases |ws|
  {
    if ws != [] {
      WordsSize(ws[1..]);
    }
  }
}
