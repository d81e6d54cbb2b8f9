/** The output the encoders append to. */
module ByteWriting {
  import opened Bytes
  import opened Grammar
  import opened Protocol
  import opened Wire

  /**
   * A growing byte buffer. Every write appends exactly what `Put` says of its field. As with the reader, ghost
   * fields follow a job: the fields `fs` with the values `vs`, started when the buffer held `base`; `pos` counts
   * the fields written, and a failing write decides the outcome of the whole job.
   */
  class ByteBuffer {
    var bytes: seq<byte>
    ghost var fs: seq<Field>
    ghost var vs: seq<Value>
    ghost var base: seq<byte>
    ghost var pos: nat

    constructor ()
      ensures bytes == []
    {
      bytes, fs, vs, base, pos := [], [], [], [], 0;
    }

    ghost predicate OnJob()
      reads this
    {
      Writable(fs, vs) && pos <= |fs| && WriteUpTo(fs, vs, pos).fault.None?
      && bytes == base + WriteUpTo(fs, vs, pos).bytes
    }

    ghost predicate At(f: Field, v: Value)
      reads this
    {
      pos < |fs| && pos < |vs| && fs[pos] == f && vs[pos] == v
    }

    ghost predicate Finished(fault: Option<ProtocolError>)
      reads this
    {
      Writable(fs, vs) && WriteUpTo(fs, vs, |fs|).fault == fault && bytes == base + WriteUpTo(fs, vs, |fs|).bytes
    }

    /** Field `f` was asked to carry `v`, with result `r`. */
    twostate predicate Appended(f: Field, v: Value, new r: Result<(), ProtocolError>)
      requires CanPut(f, v)
      reads this
    {
      && bytes == old(bytes) + Put(f, v).bytes
      && r == (if Put(f, v).fault.Some? then Err(Put(f, v).fault.value) else Ok(()))
    }

    twostate predicate Followed(f: Field, v: Value, new r: Result<(), ProtocolError>)
      reads this
    {
      && fs == old(fs) && vs == old(vs) && base == old(base)
      && (old(OnJob() && At(f, v)) ==>
            if r.Ok? then OnJob() && pos == old(pos) + 1 else Finished(Some(r.error)))
    }

    ghost method Begin(fs: seq<Field>, vs: seq<Value>)
      requires Writable(fs, vs)
      modifies this
      ensures bytes == old(bytes)
      ensures this.fs == fs && this.vs == vs && base == bytes && pos == 0 && OnJob()
    {
      this.fs, this.vs, base, pos := fs, vs, bytes, 0;
    }

    lemma Done()
      requires OnJob() && pos == |fs|
      ensures Finished(None)
    {
    }

    lemma Ahead(f: Field, v: Value)
      requires CanPut(f, v)
      ensures OnJob() && At(f, v) ==>
                && pos < |fs|
                && (Put(f, v).fault.None? ==>
                      WriteUpTo(fs, vs, pos + 1).fault.None?
                      && base + WriteUpTo(fs, vs, pos + 1).bytes == bytes + Put(f, v).bytes)
                && (Put(f, v).fault.Some? ==>
                      WriteUpTo(fs, vs, |fs|).fault == Put(f, v).fault
                      && base + WriteUpTo(fs, vs, |fs|).bytes == bytes + Put(f, v).bytes)
    {
      if OnJob() && At(f, v) {
        hide Put;
        assert base + (WriteUpTo(fs, vs, pos).bytes + Put(f, v).bytes) == bytes + Put(f, v).bytes;
        if Put(f, v).fault.Some? {
          WriteFaultSticks(fs, vs, pos + 1, |fs|);
        }
      }
    }

    method WriteString(value: Text) returns (r: Result<(), ProtocolError>)
      modifies this
      ensures Appended(Str, Chars(value), r)
      ensures Followed(Str, Chars(value), r)
    {
      Ahead(Str, Chars(value));
      hide ValidUtf8, Writable;
      if |value| > U16_MAX {
        return Err(PayloadStringTooLong(|value|));
      }
      ghost var old_bytes := bytes;
      bytes := bytes + ToLE(|value|, 2);
      bytes := bytes + value;
      assert bytes == old_bytes + Print(Str, Chars(value));
      pos := pos + 1;
      return Ok(());
    }

    method WriteInt(n: nat, width: nat)
      requires n < Pow256(width)
      modifies this
      ensures Appended(Int(width), Num(n), Ok(()))
      ensures Followed(Int(width), Num(n), Ok(()))
    {
      Ahead(Int(width), Num(n));
      bytes := bytes + ToLE(n, width);
      pos := pos + 1;
    }

    method WriteCode(kind: CodeKind, n: nat)
      requires KnownCode(kind, n)
      modifies this
      ensures Appended(Code(kind), Num(n), Ok(()))
      ensures Followed(Code(kind), Num(n), Ok(()))
    {
      Ahead(Code(kind), Num(n));
      bytes := bytes + ToLE(n, CodeWidth(kind));
      pos := pos + 1;
    }

    method WriteBool(value: bool)
      modifies this
      ensures Appended(Flag, Bit(value), Ok(()))
      ensures Followed(Flag, Bit(value), Ok(()))
    {
      Ahead(Flag, Bit(value));
      bytes := bytes + [if value then 1 else 0];
      pos := pos + 1;
    }

    method WriteReserved()
      modifies this
      ensures Appended(Zeros, Reserved, Ok(()))
      ensures Followed(Zeros, Reserved, Ok(()))
    {
      Ahead(Zeros, Reserved);
      bytes := bytes + [0, 0, 0];
      pos := pos + 1;
    }

    /** A u32 length and the bytes themselves. */
    method WriteBlob(value: seq<byte>)
      requires |value| <= U32_MAX
      modifies this
      ensures Appended(Blob, Raw(value), Ok(()))
      ensures Followed(Blob, Raw(value), Ok(()))
    {
      Ahead(Blob, Raw(value));
      ghost var old_bytes := bytes;
      bytes := bytes + ToLE(|value|, 4);
      bytes := bytes + value;
      assert bytes == old_bytes + Print(Blob, Raw(value));
      pos := pos + 1;
    }

    method WriteOptionalString(value: Option<Text>) returns (r: Result<(), ProtocolError>)
      modifies this
      ensures Appended(Opt(Str), OptText(value), r)
      ensures Followed(Opt(Str), OptText(value), r)
    {
      Ahead(Opt(Str), OptText(value));
      hide ValidUtf8;
      if value.None? {
        bytes := bytes + [0];
      } else {
        var text := value.value;
        bytes := bytes + [1];
        if |text| > U16_MAX {
          return Err(PayloadStringTooLong(|text|));
        }
        ghost var old_bytes := old(bytes);
        bytes := bytes + ToLE(|text|, 2);
        bytes := bytes + text;
        assert bytes == old_bytes + ([1] + Print(Str, Chars(text)));
      }
      pos := pos + 1;
      return Ok(());
    }

    method WriteOptionalU64(value: Option<u64>)
      modifies this
      ensures Appended(Opt(Int(8)), OptU64(value), Ok(()))
      ensures Followed(Opt(Int(8)), OptU64(value), Ok(()))
    {
      Ahead(Opt(Int(8)), OptU64(value));
      PutOptU64(value);
      hide Put, OptU64, Fits, TooLong;
      if value.None? {
        bytes := bytes + [0];
      } else {
        bytes := bytes + [1];
        bytes := bytes + ToLE(value.value, 8);
        assert bytes == old(bytes) + ([1] + ToLE(value.value, 8));
      }
      pos := pos + 1;
    }

    method WriteOptionalProtocolVersion(value: Option<Version>)
      modifies this
      ensures Appended(Opt(Int(4)), OptU32(value), Ok(()))
      ensures Followed(Opt(Int(4)), OptU32(value), Ok(()))
    {
      Ahead(Opt(Int(4)), OptU32(value));
      PutOptU32(value);
      hide Put, OptU32, Fits, TooLong;
      if value.None? {
        bytes := bytes + [0];
      } else {
        bytes := bytes + [1];
        bytes := bytes + ToLE(value.value, 4);
        assert bytes == old(bytes) + ([1] + ToLE(value.value, 4));
      }
      pos := pos + 1;
    }

    method WriteObservation(value: Option<HeartbeatAckObservation>)
      modifies this
      ensures Appended(Opt(Words(4)), OptObservation(value), Ok(()))
      ensures Followed(Opt(Words(4)), OptObservation(value), Ok(()))
    {
      Ahead(Opt(Words(4)), OptObservation(value));
      PutObservation(value);
      hide Put, OptObservation, Fits, TooLong, ToLE;
      if value.None? {
        bytes := bytes + [0];
      } else {
        var o := value.value;
        bytes := bytes + [1];
        bytes := bytes + ToLE(o.echoedSentAt, 8);
        bytes := bytes + ToLE(o.serverReceivedAt, 8);
        bytes := bytes + ToLE(o.serverSentAt, 8);
        bytes := bytes + ToLE(o.clientReceivedAt, 8);
        FourWords(old(bytes), o.echoedSentAt, o.serverReceivedAt, o.serverSentAt, o.clientReceivedAt);
      }
      pos := pos + 1;
    }
  }

  lemma PutOptU64(value: Option<u64>)
    ensures Put(Opt(Int(8)), OptU64(value)) == Written(if value.None? then [0] else [1] + ToLE(value.value, 8), None)
  {
    if value.Some? {
      assert Print(Int(8), Num(value.value)) == ToLE(value.value, 8);
    }
  }

  lemma PutOptU32(value: Option<u32>)
    ensures Put(Opt(Int(4)), OptU32(value)) == Written(if value.None? then [0] else [1] + ToLE(value.value, 4), None)
  {
    if value.Some? {
      assert Print(Int(4), Num(value.value)) == ToLE(value.value, 4);
    }
  }

  lemma PutObservation(value: Option<HeartbeatAckObservation>)
    ensures Put(Opt(Words(4)), OptObservation(value))
         == Written(if value.None? then [0]
                    else [1] + PrintWords([value.value.echoedSentAt, value.value.serverReceivedAt,
                                           value.value.serverSentAt, value.value.clientReceivedAt]), None)
  {
    if value.Some? {
      assert Print(Words(4), OptObservation(value).value) == PrintWords(OptObservation(value).value.words);
    }
  }

  lemma FourWords(b: seq<byte>, t0: nat, t1: nat, t2: nat, t3: nat)
    ensures b + [1] + ToLE(t0, 8) + ToLE(t1, 8) + ToLE(t2, 8) + ToLE(t3, 8) == b + ([1] + PrintWords([t0, t1, t2, t3]))
  {
    var a0, a1, a2, a3 := ToLE(t0, 8), ToLE(t1, 8), ToLE(t2, 8), ToLE(t3, 8);
    assert PrintWords([t0, t1, t2, t3]) == a0 + (a1 + (a2 + a3)) by {
      hide ToLE;
      PrintedWord(t3, []);
      PrintedWord(t2, [t3]);
      PrintedWord(t1, [t2, t3]);
      PrintedWord(t0, [t1, t2, t3]);
    }
    hide ToLE, PrintWords;
    Associative(b, [1], a0);
    Associative(b + ([1] + a0), a1, a2);
    Associative(b + ([1] + a0), a1 + a2, a3);
    Associative(b, [1] + a0, a1 + a2 + a3);
    Associative(a1, a2, a3);
    Associative([1], a0, a1 + (a2 + a3));
  }

  lemma Associative(a: seq<byte>, b: seq<byte>, c: seq<byte>)
    ensures a + b + c == a + (b + c)
  {
  }

  lemma {:induction false} PrintedWord(t: nat, ws: seq<nat>)
    ensures PrintWords([t] + ws) == ToLE(t, 8) + PrintWords(ws)
    ensures ws == [] ==> PrintWords([t]) == ToLE(t, 8)
    ensures |ws| == 1 ==> PrintWords([t, ws[0]]) == ToLE(t, 8) + PrintWords(ws)
    ensures |ws| == 2 ==> PrintWords([t, ws[0], ws[1]]) == ToLE(t, 8) + PrintWords(ws)
    ensures |ws| == 3 ==> PrintWords([t, ws[0], ws[1], ws[2]]) == ToLE(t, 8) + PrintWords(ws)
  {
    assert ([t] + ws)[1..] == ws;
    assert [t] + [] == [t];
    assert |ws| == 1 ==> [t] + ws == [t, ws[0]];
    assert |ws| == 2 ==> [t] + ws == [t, ws[0], ws[1]];
    assert |ws| == 3 ==> [t] + ws == [t, ws[0], ws[1], ws[2]];
  }

  lemma {:induction false} WriteFaultSticks(fs: seq<Field>, vs: seq<Value>, j: nat, k: nat)
    requires Writable(fs, vs) && j <= k <= |fs| && WriteUpTo(fs, vs, j).fault.Some?
    ensures WriteUpTo(fs, vs, k) == WriteUpTo(fs, vs, j)
    decreases k
  {
    if j < k {
      WriteFaultSticks(fs, vs, j, k - 1);
    }
  }
}
