/** The cursor the payload decoders drive, and the buffer the encoders append to. */
module PayloadReading {
  import opened Bytes
  import opened Grammar
  import opened Protocol
  import opened Wire

  /**
   * A reader over one payload. Every read agrees with the grammar: same value, same error, same new offset,
   * whether it succeeds or fails. The ghost `plan` is the layout a decoder intends to read; while the reads
   * follow it, `pos` counts the fields read so far, and a failing read decides the outcome of the whole plan.
   */
  class PayloadReader {
    const payload: seq<byte>
    var offset: nat
    ghost const plan: seq<Field>
    ghost var pos: nat

    ghost predicate Valid()
      reads this
    {
      offset <= |payload|
    }

    ghost predicate OnPlan()
      reads this
    {
      pos <= |plan| && ParseUpTo(plan, pos, payload).result.Ok? && ParseUpTo(plan, pos, payload).next == offset
    }

    /** If the plan can be read to the end at all, `v` is its value at position `i`. */
    ghost predicate Supplies(i: nat, v: Value) {
      var whole := ReadPayload(plan, payload);
      whole.Ok? ==> i < |whole.value| && whole.value[i] == v
    }

    ghost predicate At(f: Field)
      reads this
    {
      pos < |plan| && plan[pos] == f
    }

    /** One read of field `f` with result `r` took the reader from its old state to its new one. */
    twostate predicate Took(f: Field, r: Result<Value, ProtocolError>)
      requires old(Valid())
      reads this
    {
      var s := ParseField(f, payload, old(offset));
      && old(offset) <= offset == s.next
      && r == (if s.result.Ok? then Ok(s.result.value) else Err(WireError(s.result.error, |payload|)))
    }

    /** The same read seen from the plan: it supplies the next value or settles the outcome. */
    twostate predicate Followed(f: Field, r: Result<Value, ProtocolError>)
      reads this
    {
      old(OnPlan() && At(f)) ==>
        if r.Ok?
        then OnPlan() && pos == old(pos) + 1 && Supplies(old(pos), r.value)
        else ReadPayload(plan, payload) == Err(r.error)
    }

    constructor (payload: seq<byte>, ghost plan: seq<Field>)
      ensures this.payload == payload && this.plan == plan
      ensures Valid() && offset == 0 && OnPlan() && pos == 0
    {
      this.payload := payload;
      this.plan := plan;
      offset := 0;
      pos := 0;
    }

    function EnsureAvailable(len: nat): Result<(), ProtocolError>
      reads this
    {
      if offset + len <= |payload| then Ok(())
      else Err(InvalidPayloadLength((offset + len) % 0x1_0000_0000, |payload|))
    }

    /** What reading `f` next means for the plan, before it is done. */
    lemma Ahead(f: Field)
      requires Valid()
      ensures OnPlan() && At(f) ==>
                var s := ParseField(f, payload, offset);
                if s.result.Ok?
                then ParseUpTo(plan, pos + 1, payload).result.Ok? && ParseUpTo(plan, pos + 1, payload).next == s.next
                     && Supplies(pos, s.result.value)
                else ReadPayload(plan, payload) == Err(WireError(s.result.error, |payload|))
    {
      if OnPlan() && At(f) {
        NextRead(plan, pos, payload);
      }
    }

    method ReadString() returns (r: Result<Text, ProtocolError>)
      requires Valid()
      modifies this
      ensures Valid() && Took(Str, if r.Ok? then Ok(Chars(r.value)) else Err(r.error))
      ensures Followed(Str, if r.Ok? then Ok(Chars(r.value)) else Err(r.error))
      ensures !old(At(Str)) ==> pos == old(pos)
    {
      Ahead(Str);
      ghost var planned := OnPlan() && At(Str);
      var _ :- EnsureAvailable(2);
      var byteLen := IntAt(payload, offset, 2);
      offset := offset + 2;
      var _ :- EnsureAvailable(byteLen);
      var bytes := payload[offset..offset + byteLen];
      offset := offset + byteLen;
      if !ValidUtf8(bytes) {
        return Err(InvalidUtf8String);
      }
      if planned {
        pos := pos + 1;
      }
      return Ok(bytes);
    }

    /** `read_u32` and `read_u64`, by width. */
    method ReadInt(width: nat) returns (r: Result<nat, ProtocolError>)
      requires Valid()
      modifies this
      ensures Valid() && Took(Int(width), if r.Ok? then Ok(Num(r.value)) else Err(r.error))
      ensures Followed(Int(width), if r.Ok? then Ok(Num(r.value)) else Err(r.error))
      ensures r.Ok? ==> r.value < Pow256(width)
      ensures !old(At(Int(width))) ==> pos == old(pos)
    {
      Ahead(Int(width));
      ghost var planned := OnPlan() && At(Int(width));
      var _ :- EnsureAvailable(width);
      var value := IntAt(payload, offset, width);
      IntBound(payload, offset, width);
      offset := offset + width;
      if planned {
        pos := pos + 1;
      }
      return Ok(value);
    }

    method ReadExactBytes(len: nat) returns (r: Result<seq<byte>, ProtocolError>)
      requires Valid()
      modifies this`offset
      ensures Valid()
      ensures old(offset) + len <= |payload| ==> offset == old(offset) + len && r == Ok(payload[old(offset)..offset])
      ensures old(offset) + len > |payload| ==>
                r == Err(WireError(Short(old(offset), len), |payload|)) && offset == old(offset)
    {
      var _ :- EnsureAvailable(len);
      offset := offset + len;
      return Ok(payload[offset - len..offset]);
    }

    method ReadBool() returns (r: Result<bool, ProtocolError>)
      requires Valid()
      modifies this
      ensures Valid() && Took(Flag, if r.Ok? then Ok(Bit(r.value)) else Err(r.error))
      ensures Followed(Flag, if r.Ok? then Ok(Bit(r.value)) else Err(r.error))
    {
      Ahead(Flag);
      ghost var planned := OnPlan() && At(Flag);
      var _ :- EnsureAvailable(1);
      var value := payload[offset];
      offset := offset + 1;
      if value > 1 {
        return Err(InvalidBoolValue(value));
      }
      if planned {
        pos := pos + 1;
      }
      return Ok(value == 1);
    }

    /** `read_array_3` followed by the check that the bytes are zero. */
    method ReadReserved() returns (r: Result<(), ProtocolError>)
      requires Valid()
      modifies this
      ensures Valid() && Took(Zeros, if r.Ok? then Ok(Reserved) else Err(r.error))
      ensures Followed(Zeros, if r.Ok? then Ok(Reserved) else Err(r.error))
    {
      Ahead(Zeros);
      ghost var planned := OnPlan() && At(Zeros);
      var metadataReserved :- ReadExactBytes(3);
      if metadataReserved != [0, 0, 0] {
        return Err(InvalidMetadataReserved(metadataReserved));
      }
      if planned {
        pos := pos + 1;
      }
      return Ok(());
    }

    /** `read_u16` followed by the conversion to an enumeration. */
    method ReadCode(kind: CodeKind) returns (r: Result<nat, ProtocolError>)
      requires Valid() && kind in {ReasonCode, CodecCode, NoticeCode}
      modifies this
      ensures Valid() && Took(Code(kind), if r.Ok? then Ok(Num(r.value)) else Err(r.error))
      ensures Followed(Code(kind), if r.Ok? then Ok(Num(r.value)) else Err(r.error))
      ensures r.Ok? ==> KnownCode(kind, r.value)
    {
      Ahead(Code(kind));
      ghost var planned := OnPlan() && At(Code(kind));
      var code :- ReadInt(2);
      if !KnownCode(kind, code) {
        return Err(WireError(BadCode(kind, code), |payload|));
      }
      if planned {
        pos := pos + 1;
      }
      return Ok(code);
    }

    /** `read_u32` followed by `read_exact_bytes` of that length. */
    method ReadBlob() returns (r: Result<seq<byte>, ProtocolError>)
      requires Valid()
      modifies this
      ensures Valid() && Took(Blob, if r.Ok? then Ok(Raw(r.value)) else Err(r.error))
      ensures Followed(Blob, if r.Ok? then Ok(Raw(r.value)) else Err(r.error))
    {
      Ahead(Blob);
      ghost var planned := OnPlan() && At(Blob);
      var size :- ReadInt(4);
      var bytes :- ReadExactBytes(size);
      if planned {
        pos := pos + 1;
      }
      return Ok(bytes);
    }

    method ReadPresent() returns (r: Result<bool, ProtocolError>)
      requires Valid()
      modifies this`offset
      ensures Valid()
      ensures if old(offset) == |payload|
              then r == Err(WireError(Short(old(offset), 1), |payload|)) && offset == old(offset)
              else offset == old(offset) + 1 &&
                   r == (if payload[old(offset)] <= 1 then Ok(payload[old(offset)] == 1)
                         else Err(InvalidOptionalTag(payload[old(offset)])))
    {
      var _ :- EnsureAvailable(1);
      var present := payload[offset];
      offset := offset + 1;
      return if present <= 1 then Ok(present == 1) else Err(InvalidOptionalTag(present));
    }

    method ReadOptionalString() returns (r: Result<Option<Text>, ProtocolError>)
      requires Valid()
      modifies this
      ensures Valid() && Took(Opt(Str), if r.Ok? then Ok(OptText(r.value)) else Err(r.error))
      ensures Followed(Opt(Str), if r.Ok? then Ok(OptText(r.value)) else Err(r.error))
    {
      Ahead(Opt(Str));
      ghost var planned := OnPlan() && At(Opt(Str));
      var value := None;
      var present :- ReadPresent();
      if present {
        var text :- ReadString();
        value := Some(text);
      }
      if planned {
        pos := pos + 1;
      }
      return Ok(value);
    }

    /** `read_optional_u32` and `read_optional_u64`, by width. */
    method ReadOptionalInt(width: nat) returns (r: Result<Option<nat>, ProtocolError>)
      requires Valid()
      modifies this
      ensures Valid() && Took(Opt(Int(width)), if r.Ok? then Ok(OptNum(r.value)) else Err(r.error))
      ensures Followed(Opt(Int(width)), if r.Ok? then Ok(OptNum(r.value)) else Err(r.error))
      ensures r.Ok? && r.value.Some? ==> r.value.value < Pow256(width)
    {
      Ahead(Opt(Int(width)));
      ghost var planned := OnPlan() && At(Opt(Int(width)));
      var value := None;
      var present :- ReadPresent();
      if present {
        var n :- ReadInt(width);
        value := Some(n);
      }
      if planned {
        pos := pos + 1;
      }
      return Ok(value);
    }

    /** The four consecutive `read_u64` calls of an observation block. */
    method ReadFourTimestamps() returns (r: Result<seq<nat>, ProtocolError>)
      requires Valid()
      modifies this
      ensures Valid()
      ensures var s := ParseWords(payload, old(offset), 4);
              && offset == s.next
              && r == (if s.result.Ok? then Ok(s.result.value) else Err(WireError(s.result.error, |payload|)))
      ensures r.Ok? ==> |r.value| == 4 && forall i :: 0 <= i < 4 ==> r.value[i] < Pow256(8)
      ensures !old(At(Int(8))) ==> pos == old(pos)
    {
      hide OnPlan, ReadPayload;
      UnfoldWords(payload, offset);
      var t0 :- ReadInt(8);
      var t1 :- ReadInt(8);
      var t2 :- ReadInt(8);
      var t3 :- ReadInt(8);
      return Ok([t0, t1, t2, t3]);
    }

    method ReadOptionalHeartbeatObservation(clientId: ClientId, runId: RunId)
      returns (r: Result<Option<HeartbeatAckObservation>, ProtocolError>)
      requires Valid()
      modifies this
      ensures Valid() && Took(Opt(Words(4)), if r.Ok? then Ok(OptObservation(r.value)) else Err(r.error))
      ensures Followed(Opt(Words(4)), if r.Ok? then Ok(OptObservation(r.value)) else Err(r.error))
      ensures r.Ok? && r.value.Some? ==> r.value.value.clientId == clientId && r.value.value.runId == runId
    {
      Ahead(Opt(Words(4)));
      hide ReadPayload, ParseUpTo, ParseWords, ValidUtf8, ObservationFrom;
      ghost var planned := OnPlan() && At(Opt(Words(4)));
      var value := None;
      var present :- ReadPresent();
      if present {
        var t :- ReadFourTimestamps();
        value := Some(ObservationFrom(clientId, runId, t));
      }
      if planned {
        pos := pos + 1;
      }
      return Ok(value);
    }

    method Finish() returns (r: Result<(), ProtocolError>)
      ensures r == if offset == |payload| then Ok(()) else Err(InvalidPayloadLength(offset % 0x1_0000_0000, |payload|))
      ensures OnPlan() && pos == |plan| && r.Err? ==> ReadPayload(plan, payload) == Err(r.error)
      ensures OnPlan() && pos == |plan| && r.Ok? ==> ReadPayload(plan, payload).Ok?
    {
      return if offset == |payload| then Ok(()) else Err(InvalidPayloadLength(offset % 0x1_0000_0000, |payload|));
    }
  }

  function ObservationFrom(clientId: ClientId, runId: RunId, t: seq<nat>): (o: HeartbeatAckObservation)
    requires |t| == 4 && forall i :: 0 <= i < 4 ==> t[i] < Pow256(8)
    ensures o.clientId == clientId && o.runId == runId && OptObservation(Some(o)) == Present(Series(t))
  {
    Pow256Values();
    assert [t[0], t[1], t[2], t[3]] == t;
    HeartbeatAckObservation(clientId, runId, t[0], t[1], t[2], t[3])
  }

  function OptNum(n: Option<nat>): Value {
    match n case None => Absent case Some(x) => Present(Num(x))
  }

  lemma UnfoldWords(p: seq<byte>, o: nat)
    requires o <= |p|
    ensures ParseWords(p, o, 4) ==
            if o + 8 > |p| then Parsed(Err(Short(o, 8)), o)
            else if o + 16 > |p| then Parsed(Err(Short(o + 8, 8)), o + 8)
            else if o + 24 > |p| then Parsed(Err(Short(o + 16, 8)), o + 16)
            else if o + 32 > |p| then Parsed(Err(Short(o + 24, 8)), o + 24)
            else Parsed(Ok([IntAt(p, o, 8), IntAt(p, o + 8, 8), IntAt(p, o + 16, 8), IntAt(p, o + 24, 8)]), o + 32)
  {
    if o + 32 <= |p| {
      var a, b, c, d := IntAt(p, o, 8), IntAt(p, o + 8, 8), IntAt(p, o + 16, 8), IntAt(p, o + 24, 8);
      assert ParseWords(p, o + 24, 1) == Parsed(Ok([d] + []), o + 32);
      assert ParseWords(p, o + 16, 2) == Parsed(Ok([c] + ([d] + [])), o + 32);
      assert [a] + ([b] + ([c] + ([d] + []))) == [a, b, c, d];
    }
  }
}
