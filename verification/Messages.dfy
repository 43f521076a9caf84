/** The generated methods of `MsgAuctionBid` (x/builder/types/tx.pb.go), proved against `Codec`. */
module Messages {
  import opened Integers
  import opened Proposals
  import opened Varint
  import opened Codec

  lemma DropDrop(s: Bytes, i: nat, n: nat)
    requires i + n <= |s|
    ensures s[i..][n..] == s[i + n..]
  {
  }

  lemma DropSlice(s: Bytes, i: nat, start: nat, end: nat)
    requires start <= end && i + end <= |s|
    ensures s[i..][start..end] == s[i + start..i + end]
  {
  }

  lemma {:induction false} TransactionsAppend(a: seq<Bytes>, b: seq<Bytes>)
    ensures EncodeTransactions(a + b) == EncodeTransactions(a) + EncodeTransactions(b)
  {
    if a == [] {
      assert a + b == b;
    } else {
      assert (a + b)[1..] == a[1..] + b && (a + b)[0] == a[0];
      TransactionsAppend(a[1..], b);
    }
  }

  lemma OneTransaction(tx: Bytes)
    ensures EncodeTransactions([tx]) == Field(TRANSACTION, tx)
  {
    assert [tx][1..] == [];
    assert EncodeTransactions([tx]) == Field(TRANSACTION, tx) + [];
  }

  /** Go's `copy`, into the middle of a buffer. */
  method Copy(dAtA: array<Byte>, at: nat, content: Bytes)
    requires at + |content| <= dAtA.Length
    modifies dAtA
    ensures dAtA[..] == old(dAtA[..at]) + content + old(dAtA[at + |content|..])
  {
    forall k | 0 <= k < |content| {
      dAtA[at + k] := content[k];
    }
  }

  /** The buffer holds what it held before, up to `i`, and `written` from there. */
  ghost predicate FilledFrom(now: Bytes, before: Bytes, i: nat, written: Bytes) {
    i + |written| == |before| && now == before[..i] + written
  }

  lemma FilledNot(before: Bytes)
    ensures FilledFrom(before, before, |before|, [])
  {
  }

  lemma FilledAll(now: Bytes, before: Bytes, i: nat, written: Bytes)
    requires FilledFrom(now, before, i, written)
    ensures i + |written| == |before| && now == before[..i] + written
  {
  }

  lemma NoTransactions()
    ensures EncodeTransactions([]) == []
  {
  }

  /** Replacing the part just below `i` extends what is written. */
  lemma FillBelow(now: Bytes, before: Bytes, i: nat, written: Bytes, start: nat, part: Bytes)
    requires FilledFrom(now, before, i, written) && start + |part| == i
    ensures FilledFrom(now[..start] + part + now[i..], before, start, part + written)
  {
    assert now[..start] == before[..start] && now[i..] == written;
    assert before[..start] + part + written == before[..start] + (part + written);
  }

  /** Puts `part` into the buffer just below `i`. */
  method CopyBelow(dAtA: array<Byte>, i: nat, part: Bytes, ghost before: Bytes, ghost written: Bytes) returns (start: nat)
    requires |part| <= i <= dAtA.Length && FilledFrom(dAtA[..], before, i, written)
    modifies dAtA
    ensures start == i - |part| && FilledFrom(dAtA[..], before, start, part + written)
  {
    hide FilledFrom;
    ghost var now := dAtA[..];
    start := i - |part|;
    Copy(dAtA, start, part);
    assert dAtA[..] == now[..start] + part + now[i..];
    FillBelow(now, before, i, written, start, part);
  }

  method VarintBelow(dAtA: array<Byte>, i: nat, v: nat, ghost before: Bytes, ghost written: Bytes) returns (start: nat)
    requires |EncodeVarint(v)| <= i <= dAtA.Length && FilledFrom(dAtA[..], before, i, written)
    modifies dAtA
    ensures start == i - |EncodeVarint(v)| && FilledFrom(dAtA[..], before, start, EncodeVarint(v) + written)
  {
    hide FilledFrom, EncodeVarint, Sov;
    SovIsTheSize(v);
    ghost var now := dAtA[..];
    start := EncodeVarintTx(dAtA, i, v);
    FillBelow(now, before, i, written, start, EncodeVarint(v));
  }

  lemma FieldParts(key: Byte, content: Bytes, written: Bytes)
    ensures [key] + (EncodeVarint(|content|) + (content + written)) == Field(key, content) + written
    ensures |Field(key, content)| == 1 + |EncodeVarint(|content|)| + |content|
  {
  }

  /** Writes a field so that it ends at `i`, content first, and returns where it starts. */
  method PutField(dAtA: array<Byte>, i: nat, key: Byte, content: Bytes, ghost before: Bytes, ghost written: Bytes) returns (start: nat)
    requires |Field(key, content)| <= i <= dAtA.Length && FilledFrom(dAtA[..], before, i, written)
    modifies dAtA
    ensures start == i - |Field(key, content)|
    ensures FilledFrom(dAtA[..], before, start, Field(key, content) + written)
  {
    FieldParts(key, content, written);
    hide EncodeVarint, FilledFrom, Field;
    start := CopyBelow(dAtA, i, content, before, written);
    start := VarintBelow(dAtA, start, |content|, before, content + written);
    start := CopyBelow(dAtA, start, [key], before, EncodeVarint(|content|) + (content + written));
  }

  class MsgAuctionBid<C> {
    var bidder: Bytes
    var bid: C
    var transactions: seq<Bytes>

    constructor (m: Msg<C>)
      ensures Value() == m
    {
      bidder, bid, transactions := m.bidder, m.bid, m.transactions;
    }

    function Value(): Msg<C>
      reads this
    {
      Msg(bidder, bid, transactions)
    }

    /** Adds up the sizes of the fields, without encoding anything but the coin. */
    method Size(codec: CoinCodec<C>) returns (n: nat)
      ensures n == |Encode(codec, Value())|
    {
      n := 0;
      var l := |bidder|;
      SovIsTheSize(l);
      if l > 0 {
        n := n + 1 + l + Sov(l);
      }
      l := |codec.encode(bid)|;
      SovIsTheSize(l);
      n := n + 1 + l + Sov(l);
      ghost var others := n;
      for k := 0 to |transactions|
        invariant n == others + |EncodeTransactions(transactions[..k])|
      {
        SovIsTheSize(|transactions[k]|);
        assert transactions[..k + 1] == transactions[..k] + [transactions[k]];
        TransactionsAppend(transactions[..k], [transactions[k]]);
        OneTransaction(transactions[k]);
        n := n + 1 + |transactions[k]| + Sov(|transactions[k]|);
      }
      assert transactions[..|transactions|] == transactions;
    }

    /** Fills the buffer from its end: last transaction first, then the bid, then the bidder. */
    method MarshalToSizedBuffer(codec: CoinCodec<C>, dAtA: array<Byte>) returns (n: nat)
      requires |Encode(codec, Value())| <= dAtA.Length
      modifies dAtA
      ensures n == |Encode(codec, Value())| && n <= dAtA.Length
      ensures dAtA[..] == old(dAtA[..dAtA.Length - n]) + Encode(codec, Value())
    {
      hide Field, FilledFrom, EncodeTransactions;
      var i: nat := dAtA.Length;
      ghost var before := dAtA[..];
      ghost var written: Bytes := [];
      ghost var bidField := Field(BID, codec.encode(bid));
      ghost var bidderField := if bidder == [] then [] else Field(BIDDER, bidder);
      FilledNot(before);
      NoTransactions();
      var k := |transactions|;
      assert transactions[..k] == transactions && transactions[k..] == [];
      while k > 0
        invariant k <= |transactions| && unchanged(this)
        invariant written == EncodeTransactions(transactions[k..])
        invariant i + |written| == dAtA.Length && FilledFrom(dAtA[..], before, i, written)
        invariant |bidderField| + |bidField| + |EncodeTransactions(transactions[..k])| <= i
      {
        k := k - 1;
        var tx := transactions[k];
        assert transactions[..k + 1] == transactions[..k] + [tx] && transactions[k..] == [tx] + transactions[k + 1..];
        TransactionsAppend(transactions[..k], [tx]);
        TransactionsAppend([tx], transactions[k + 1..]);
        OneTransaction(tx);
        i := PutField(dAtA, i, TRANSACTION, tx, before, written);
        written := Field(TRANSACTION, tx) + written;
      }
      assert transactions[0..] == transactions;
      i := PutField(dAtA, i, BID, codec.encode(bid), before, written);
      written := bidField + written;
      if |bidder| > 0 {
        i := PutField(dAtA, i, BIDDER, bidder, before, written);
        written := bidderField + written;
      }
      assert written == Encode(codec, Value());
      n := dAtA.Length - i;
      FilledAll(dAtA[..], before, i, written);
    }

    /** Allocates exactly the size and fills it: the index of the backward writer ends at zero. */
    method Marshal(codec: CoinCodec<C>) returns (dAtA: array<Byte>)
      ensures fresh(dAtA) && dAtA[..] == Encode(codec, Value())
    {
      var size := Size(codec);
      dAtA := new Byte[size];
      var n := MarshalToSizedBuffer(codec, dAtA);
    }

    /** Reads fields to the end of the data, into this message. */
    method Unmarshal(codec: CoinCodec<C>, data: Bytes) returns (error: Error)
      modifies this
      ensures Outcome(error, Value()) == Parse(codec, data, 0, old(Value()))
    {
      hide Parse, ParseField;
      var i := 0;
      assert data[0..] == data;
      ParseUnfolds(codec, data, 0, Value());
      while i < |data|
        invariant i <= |data|
        invariant Parse(codec, data, 0, old(Value())) == Parse(codec, data[i..], i, Value())
        decreases |data| - i
      {
        ParseUnfolds(codec, data[i..], i, Value());
        var step := UnmarshalField(codec, data, i);
        if step.Failed? {
          return Error(step.error);
        }
        DropDrop(data, i, step.size);
        i := i + step.size;
      }
      ParseUnfolds(codec, data[i..], i, Value());
      return NoError;
    }

    /** One round of that loop. */
    method UnmarshalField(codec: CoinCodec<C>, data: Bytes, i: nat) returns (step: Step<C>)
      requires i < |data|
      modifies this
      ensures step == ParseField(codec, data[i..], i, old(Value()))
      ensures step.msg == Value()
    {
      hide ReadVarint, SkipField, ReadSpan;
      var tag := DecodeVarint(data, i);
      if !tag.Value? {
        return Failed(VarintError(tag), Value());
      }
      var fieldNum, wireType := ToInt32(tag.value / 8), tag.value % 8;
      if wireType == 4 {
        return Failed(EndGroup, Value());
      }
      if fieldNum <= 0 {
        return Failed(IllegalTag, Value());
      }
      if fieldNum <= 3 {
        if wireType != 2 {
          return Failed(WrongWireType, Value());
        }
        var at := i + tag.size;
        DropDrop(data, i, tag.size);
        var span := DecodeSpan(data, at);
        if span.SpanFailed? {
          return Failed(span.error, Value());
        }
        var content := data[at + span.start..at + span.end];
        DropSlice(data, at, span.start, span.end);
        if fieldNum == 1 {
          bidder := content;
        } else if fieldNum == 2 {
          var merged := codec.merge(bid, content);
          bid := merged.coin;
          if !merged.ok {
            return Failed(BadCoin, Value());
          }
        } else {
          transactions := transactions + [content];
        }
        return Parsed(tag.size + span.end, Value());
      }
      var skippy := SkipTx(data[i..]);
      if skippy.SkipFailed? {
        return Failed(skippy.error, Value());
      }
      if ToInt64(i + skippy.size) < 0 {
        return Failed(InvalidLength, Value());
      }
      if i + skippy.size > |data| {
        return Failed(UnexpectedEOF, Value());
      }
      return Parsed(skippy.size, Value());
    }
  }

  /** Where the content of a length-delimited field is. */
  method DecodeSpan(data: Bytes, i: nat) returns (span: Span)
    requires i <= |data|
    ensures span == ReadSpan(data[i..], i)
  {
    var len := DecodeVarint(data, i);
    if !len.Value? {
      return SpanFailed(VarintError(len));
    }
    if ToInt64(len.value) < 0 {
      return SpanFailed(InvalidLength);
    }
    if ToInt64(i + len.size + len.value) < 0 {
      return SpanFailed(InvalidLength);
    }
    if i + len.size + len.value > |data| {
      return SpanFailed(UnexpectedEOF);
    }
    return Span(len.size, len.size + len.value);
  }

  /** Skips one field with everything nested in it. */
  method SkipTx(data: Bytes) returns (r: Skip)
    ensures r == SkipField(data, 0, 0)
    ensures r.Skipped? ==> r.size >= 1
  {
    hide ReadVarint, SkipContent, ToInt64;
    var i, depth: nat := 0, 0;
    assert data[0..] == data;
    while i < |data|
      invariant i <= |data| ==> SkipField(data, 0, 0) == SkipField(data[i..], i, depth)
      invariant i > |data| ==> SkipField(data, 0, 0) == SkipFailed(UnexpectedEOF)
      decreases |data| - i
    {
      var tag := DecodeVarint(data, i);
      if !tag.Value? {
        return SkipFailed(VarintError(tag));
      }
      var wireType := tag.value % 8;
      DropDrop(data, i, tag.size);
      var content := SkipWireType(data, i + tag.size, wireType);
      if content.SkipFailed? {
        return content;
      }
      if wireType == 3 {
        depth := depth + 1;
      } else if wireType == 4 {
        if depth == 0 {
          return SkipFailed(UnexpectedEndOfGroup);
        }
        depth := depth - 1;
      }
      ghost var size := tag.size + content.size;
      if i + size < |data| {
        DropDrop(data, i, size);
      }
      i := i + tag.size + content.size;
      if ToInt64(i) < 0 {
        return SkipFailed(InvalidLength);
      }
      if depth == 0 {
        return Skipped(i);
      }
    }
    return SkipFailed(UnexpectedEOF);
  }

  /** The content that a wire type announces. */
  method SkipWireType(data: Bytes, i: nat, wireType: nat) returns (r: Skip)
    requires i <= |data|
    ensures r == SkipContent(wireType, data[i..])
  {
    hide ReadVarint;
    match wireType
    case 0 =>
      var v := DecodeVarint(data, i);
      r := if v.Value? then Skipped(v.size) else SkipFailed(VarintError(v));
    case 1 => r := Skipped(8);
    case 2 =>
      var len := DecodeVarint(data, i);
      if !len.Value? {
        return SkipFailed(VarintError(len));
      }
      if ToInt64(len.value) < 0 {
        return SkipFailed(InvalidLength);
      }
      r := Skipped(len.size + len.value);
    case 3 => r := Skipped(0);
    case 4 => r := Skipped(0);
    case 5 => r := Skipped(4);
    case _ => r := SkipFailed(IllegalWireType);
  }
}
