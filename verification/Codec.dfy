/** The wire codec of `MsgAuctionBid` (x/builder/types/tx.pb.go): a writer that fills a sized buffer from
    its end, and a reader, after the Protocol Buffers encoding specification, "Message Structure". The
    codec of the coin inside the message is a parameter. */
module Codec {
  import opened Integers
  import opened Proposals
  import opened Varint

  /** Unmarshalling into a coin that already has contents merges into it. */
  datatype Merged<C> = Merged(ok: bool, coin: C)

  datatype CoinCodec<!C> = CoinCodec(zero: C, encode: C -> Bytes, merge: (C, Bytes) -> Merged<C>)

  datatype Msg<C> = Msg(bidder: Bytes, bid: C, transactions: seq<Bytes>)

  function Empty<C>(codec: CoinCodec<C>): Msg<C> {
    Msg([], codec.zero, [])
  }

  // ---------------------------------------------------------------- writing

  const BIDDER: Byte := 0x0a
  const BID: Byte := 0x12
  const TRANSACTION: Byte := 0x1a

  /** A length-delimited field: key, length, content. */
  function Field(key: Byte, content: Bytes): Bytes {
    [key] + EncodeVarint(|content|) + content
  }

  function EncodeTransactions(txs: seq<Bytes>): Bytes {
    if txs == [] then [] else Field(TRANSACTION, txs[0]) + EncodeTransactions(txs[1..])
  }

  /** The fields in order of their numbers; an empty bidder is not written. */
  function Encode<C>(codec: CoinCodec<C>, m: Msg<C>): Bytes {
    (if m.bidder == [] then [] else Field(BIDDER, m.bidder))
    + Field(BID, codec.encode(m.bid))
    + EncodeTransactions(m.transactions)
  }

  // ---------------------------------------------------------------- reading

  datatype ParseError =
    | IntOverflow | UnexpectedEOF | InvalidLength | EndGroup | IllegalTag | WrongWireType
    | UnexpectedEndOfGroup | IllegalWireType | BadCoin

  /** How much a field without a meaning for the message takes. */
  datatype Skip = SkipFailed(error: ParseError) | Skipped(size: nat)

  /** A length-delimited content: it starts after `start` bytes and ends after `end`. */
  datatype Span = SpanFailed(error: ParseError) | Span(start: nat, end: nat)

  function VarintError(r: Read): ParseError
    requires !r.Value?
  {
    if r.Overflow? then IntOverflow else UnexpectedEOF
  }

  /** What a tag's wire type says to skip after the tag, in front of `s`; group tags have no content. */
  function SkipContent(wireType: nat, s: Bytes): Skip {
    match wireType
    case 0 => (var r := ReadVarint(s, 0, 0); if r.Value? then Skipped(r.size) else SkipFailed(VarintError(r)))
    case 1 => Skipped(8)
    case 2 =>
      var r := ReadVarint(s, 0, 0);
      if !r.Value? then SkipFailed(VarintError(r))
      else if ToInt64(r.value) < 0 then SkipFailed(InvalidLength)
      else Skipped(r.size + r.value)
    case 3 => Skipped(0)
    case 4 => Skipped(0)
    case 5 => Skipped(4)
    case _ => SkipFailed(IllegalWireType)
  }

  function DepthAfter(wireType: nat, depth: nat): int {
    if wireType == 3 then depth + 1 else if wireType == 4 then depth - 1 else depth
  }

  /** The size of a field with everything nested in it, having skipped `at` bytes of it and standing
      inside `depth` groups. The size may exceed what there is; the caller checks. */
  function SkipField(s: Bytes, at: nat, depth: nat): (r: Skip)
    ensures r.Skipped? ==> r.size > at
    decreases |s|
  {
    if s == [] then SkipFailed(UnexpectedEOF)
    else
      var tag := ReadVarint(s, 0, 0);
      if !tag.Value? then SkipFailed(VarintError(tag))
      else
        var wireType := tag.value % 8;
        var content := SkipContent(wireType, s[tag.size..]);
        if content.SkipFailed? then content
        else if DepthAfter(wireType, depth) < 0 then SkipFailed(UnexpectedEndOfGroup)
        else
          var size := tag.size + content.size;
          if ToInt64(at + size) < 0 then SkipFailed(InvalidLength)
          else if DepthAfter(wireType, depth) == 0 then Skipped(at + size)
          else if size >= |s| then SkipFailed(UnexpectedEOF)
          else SkipField(s[size..], at + size, DepthAfter(wireType, depth))
  }

  /** The content of a length-delimited field in front of `s`, `at` bytes into the message. */
  function ReadSpan(s: Bytes, at: nat): (r: Span)
    ensures r.Span? ==> 0 < r.start <= r.end <= |s|
  {
    var len := ReadVarint(s, 0, 0);
    if !len.Value? then SpanFailed(VarintError(len))
    else if ToInt64(len.value) < 0 then SpanFailed(InvalidLength)
    else if ToInt64(at + len.size + len.value) < 0 then SpanFailed(InvalidLength)
    else if len.size + len.value > |s| then SpanFailed(UnexpectedEOF)
    else Span(len.size, len.size + len.value)
  }

  datatype Step<C> = Failed(error: ParseError, msg: Msg<C>) | Parsed(size: nat, msg: Msg<C>)

  /** What one of the message's own fields does to the message; a bid that fails to unmarshal may have
      been merged in part. */
  function Absorb<C>(codec: CoinCodec<C>, fieldNum: int, content: Bytes, m: Msg<C>): (bool, Msg<C>) {
    if fieldNum == 1 then (true, m.(bidder := content))
    else if fieldNum == 2 then
      var merged := codec.merge(m.bid, content);
      (merged.ok, m.(bid := merged.coin))
    else (true, m.(transactions := m.transactions + [content]))
  }

  /** Reads one field off the front of `s`, `at` bytes into the message. */
  function ParseField<C>(codec: CoinCodec<C>, s: Bytes, at: nat, m: Msg<C>): (r: Step<C>)
    ensures r.Parsed? ==> 0 < r.size <= |s|
  {
    var tag := ReadVarint(s, 0, 0);
    if !tag.Value? then Failed(VarintError(tag), m)
    else
      var fieldNum, wireType := ToInt32(tag.value / 8), tag.value % 8;
      if wireType == 4 then Failed(EndGroup, m)
      else if fieldNum <= 0 then Failed(IllegalTag, m)
      else if fieldNum <= 3 then
        if wireType != 2 then Failed(WrongWireType, m)
        else
          var span := ReadSpan(s[tag.size..], at + tag.size);
          if span.SpanFailed? then Failed(span.error, m)
          else
            var (ok, m') := Absorb(codec, fieldNum, s[tag.size..][span.start..span.end], m);
            if ok then Parsed(tag.size + span.end, m') else Failed(BadCoin, m')
      else
        var skipped := SkipField(s, 0, 0);
        if skipped.SkipFailed? then Failed(skipped.error, m)
        else if ToInt64(at + skipped.size) < 0 then Failed(InvalidLength, m)
        else if skipped.size > |s| then Failed(UnexpectedEOF, m)
        else Parsed(skipped.size, m)
  }

  datatype Outcome<C> = Outcome(error: Error, msg: Msg<C>)
  datatype Error = NoError | Error(why: ParseError)

  /** Reads fields to the end of the input, merging them into `m`. */
  function Parse<C>(codec: CoinCodec<C>, s: Bytes, at: nat, m: Msg<C>): Outcome<C>
    decreases |s|
  {
    if s == [] then Outcome(NoError, m)
    else match ParseField(codec, s, at, m)
      case Failed(e, m') => Outcome(Error(e), m')
      case Parsed(n, m') => Parse(codec, s[n..], at + n, m')
  }

  /** One step of the loop. */
  lemma ParseUnfolds<C>(codec: CoinCodec<C>, s: Bytes, at: nat, m: Msg<C>)
    ensures s == [] ==> Parse(codec, s, at, m) == Outcome(NoError, m)
    ensures s != [] ==> Parse(codec, s, at, m) == match ParseField(codec, s, at, m)
                                                  case Failed(e, m') => Outcome(Error(e), m')
                                                  case Parsed(n, m') => Parse(codec, s[n..], at + n, m')
  {
    hide ParseField;
  }

  // ---------------------------------------------------------------- locality

  /** The same step, up to which error it is. */
  ghost predicate SameStep<C>(a: Step<C>, b: Step<C>) {
    a.msg == b.msg && (a.Parsed? <==> b.Parsed?) && (a.Parsed? ==> a == b)
  }

  ghost predicate SameOutcome<C>(a: Outcome<C>, b: Outcome<C>) {
    a.msg == b.msg && (a.error.NoError? <==> b.error.NoError?)
  }

  /** Where in the message a field stands only decides between errors, as long as the message is no
      longer than an integer can say. */
  lemma FieldAnywhere<C>(codec: CoinCodec<C>, s: Bytes, at: nat, at': nat, m: Msg<C>)
    requires at + |s| < TWO_TO_THE_63 && at' + |s| < TWO_TO_THE_63
    ensures SameStep(ParseField(codec, s, at, m), ParseField(codec, s, at', m))
  {
    hide ReadVarint, SkipField, Absorb;
  }

  lemma {:induction false} ParseAnywhere<C>(codec: CoinCodec<C>, s: Bytes, at: nat, at': nat, m: Msg<C>)
    requires at + |s| < TWO_TO_THE_63 && at' + |s| < TWO_TO_THE_63
    ensures SameOutcome(Parse(codec, s, at, m), Parse(codec, s, at', m))
    decreases |s|
  {
    hide Parse, ParseField;
    ParseUnfolds(codec, s, at, m);
    ParseUnfolds(codec, s, at', m);
    if s != [] {
      FieldAnywhere(codec, s, at, at', m);
      match ParseField(codec, s, at, m)
      case Failed(_, _) =>
      case Parsed(n, m') => ParseAnywhere(codec, s[n..], at + n, at' + n, m');
    }
  }

  lemma DropAfter(s: Bytes, rest: Bytes, n: nat)
    requires n <= |s|
    ensures (s + rest)[n..] == s[n..] + rest
  {
  }

  lemma SkipContentIsPrefix(wireType: nat, s: Bytes, rest: Bytes)
    requires SkipContent(wireType, s).Skipped?
    ensures SkipContent(wireType, s + rest) == SkipContent(wireType, s)
  {
    hide ReadVarint;
    if wireType == 0 || wireType == 2 {
      ReadIsPrefix(s, rest, 0, 0);
    }
  }

  lemma {:induction false} SkipIsPrefix(s: Bytes, rest: Bytes, at: nat, depth: nat)
    requires SkipField(s, at, depth).Skipped?
    ensures SkipField(s + rest, at, depth) == SkipField(s, at, depth)
    decreases |s|
  {
    hide ReadVarint, SkipContent;
    ReadIsPrefix(s, rest, 0, 0);
    var tag := ReadVarint(s, 0, 0);
    DropAfter(s, rest, tag.size);
    var wireType := tag.value % 8;
    SkipContentIsPrefix(wireType, s[tag.size..], rest);
    var size := tag.size + SkipContent(wireType, s[tag.size..]).size;
    if DepthAfter(wireType, depth) != 0 {
      DropAfter(s, rest, size);
      SkipIsPrefix(s[size..], rest, at + size, DepthAfter(wireType, depth));
    }
  }

  lemma SpanIsPrefix(s: Bytes, rest: Bytes, at: nat)
    requires ReadSpan(s, at).Span?
    ensures ReadSpan(s + rest, at) == ReadSpan(s, at)
    ensures (s + rest)[ReadSpan(s, at).start..ReadSpan(s, at).end] == s[ReadSpan(s, at).start..ReadSpan(s, at).end]
  {
    hide ReadVarint;
    ReadIsPrefix(s, rest, 0, 0);
  }

  /** A field that has been read does not depend on what follows. */
  lemma FieldIsPrefix<C>(codec: CoinCodec<C>, s: Bytes, rest: Bytes, at: nat, m: Msg<C>)
    requires ParseField(codec, s, at, m).Parsed?
    ensures ParseField(codec, s + rest, at, m) == ParseField(codec, s, at, m)
  {
    hide ReadVarint, SkipField, ReadSpan, Absorb;
    ReadIsPrefix(s, rest, 0, 0);
    var tag := ReadVarint(s, 0, 0);
    DropAfter(s, rest, tag.size);
    if ToInt32(tag.value / 8) <= 3 {
      SpanIsPrefix(s[tag.size..], rest, at + tag.size);
    } else {
      SkipIsPrefix(s, rest, 0, 0);
    }
  }

  /** Reading a message that continues after a complete one is reading the rest into the result. */
  lemma {:induction false} ParseContinues<C>(codec: CoinCodec<C>, s: Bytes, rest: Bytes, at: nat, m: Msg<C>)
    requires Parse(codec, s, at, m).error.NoError?
    ensures Parse(codec, s + rest, at, m) == Parse(codec, rest, at + |s|, Parse(codec, s, at, m).msg)
    decreases |s|
  {
    hide Parse, ParseField;
    ParseUnfolds(codec, s, at, m);
    ParseUnfolds(codec, s + rest, at, m);
    if s == [] {
      assert s + rest == rest;
    } else {
      FieldIsPrefix(codec, s, rest, at, m);
      var step := ParseField(codec, s, at, m);
      DropAfter(s, rest, step.size);
      ParseContinues(codec, s[step.size..], rest, at + step.size, step.msg);
    }
  }

  /** Concatenated messages merge: if the first part is complete, reading the whole is reading the second
      part into the result of the first. */
  lemma ConcatenationMerges<C>(codec: CoinCodec<C>, a: Bytes, b: Bytes, m: Msg<C>)
    requires |a| + |b| < TWO_TO_THE_63
    requires Parse(codec, a, 0, m).error.NoError?
    ensures SameOutcome(Parse(codec, a + b, 0, m), Parse(codec, b, 0, Parse(codec, a, 0, m).msg))
  {
    hide Parse, ParseField;
    ParseContinues(codec, a, b, 0, m);
    ParseAnywhere(codec, b, |a|, 0, Parse(codec, a, 0, m).msg);
  }

  // ---------------------------------------------------------------- the round trip

  ghost predicate RoundTrips<C(!new)>(codec: CoinCodec<C>) {
    forall c {:trigger codec.encode(c)} :: codec.merge(codec.zero, codec.encode(c)) == Merged(true, c)
  }

  lemma KeyIsOneByte(key: Byte)
    requires key < 128
    ensures EncodeVarint(key) == [key]
  {
  }

  lemma SpanRoundTrip(content: Bytes, rest: Bytes, at: nat)
    requires at + |EncodeVarint(|content|) + content| < TWO_TO_THE_63
    ensures var s, e := EncodeVarint(|content|) + content + rest, EncodeVarint(|content|);
            && ReadSpan(s, at) == Span(|e|, |e| + |content|)
            && s[|e|..|e| + |content|] == content
  {
    hide ReadVarint, EncodeVarint;
    var e := EncodeVarint(|content|);
    assert e + content + rest == e + (content + rest);
    VarintRoundTrip(|content|, content + rest);
  }

  lemma TagRoundTrip(key: Byte, content: Bytes, rest: Bytes)
    requires key < 128
    ensures ReadVarint(Field(key, content) + rest, 0, 0) == Value(key, 1)
    ensures (Field(key, content) + rest)[1..] == EncodeVarint(|content|) + content + rest
  {
    hide ReadVarint;
    var e := EncodeVarint(|content|);
    KeyIsOneByte(key);
    assert Field(key, content) + rest == EncodeVarint(key) + (e + content + rest);
    VarintRoundTrip(key, e + content + rest);
  }

  /** A field of the message's own is read back as it was written. */
  lemma FieldRoundTrip<C>(codec: CoinCodec<C>, key: Byte, content: Bytes, rest: Bytes, at: nat, m: Msg<C>)
    requires key == BIDDER || key == BID || key == TRANSACTION
    requires at + |Field(key, content)| < TWO_TO_THE_63
    ensures var absorbed := Absorb(codec, key / 8, content, m);
            ParseField(codec, Field(key, content) + rest, at, m)
            == if absorbed.0 then Parsed(|Field(key, content)|, absorbed.1) else Failed(BadCoin, absorbed.1)
  {
    hide ReadVarint, Absorb, EncodeVarint, ReadSpan;
    TagRoundTrip(key, content, rest);
    SpanRoundTrip(content, rest, at + 1);
  }

  lemma {:induction false} TransactionsRoundTrip<C>(codec: CoinCodec<C>, txs: seq<Bytes>, at: nat, m: Msg<C>)
    requires at + |EncodeTransactions(txs)| < TWO_TO_THE_63
    ensures Parse(codec, EncodeTransactions(txs), at, m) == Outcome(NoError, m.(transactions := m.transactions + txs))
  {
    hide Parse, ParseField, Field, ToInt64;
    ParseUnfolds(codec, EncodeTransactions(txs), at, m);
    if txs == [] {
      assert m.transactions + [] == m.transactions;
    } else {
      var field, rest := Field(TRANSACTION, txs[0]), EncodeTransactions(txs[1..]);
      FieldRoundTrip(codec, TRANSACTION, txs[0], rest, at, m);
      var m' := m.(transactions := m.transactions + [txs[0]]);
      TransactionsRoundTrip(codec, txs[1..], at + |field|, m');
      assert (field + rest)[|field|..] == rest;
      assert m'.transactions + txs[1..] == m.transactions + txs;
    }
  }

  /** Unmarshalling what was marshalled into an existing message: the bidder is overwritten if there is
      one, the bid is merged, and the bundle is appended in order. */
  lemma EncodingMerges<C(!new)>(codec: CoinCodec<C>, m: Msg<C>, into: Msg<C>)
    requires |Encode(codec, m)| < TWO_TO_THE_63
    requires codec.merge(into.bid, codec.encode(m.bid)).ok
    ensures Parse(codec, Encode(codec, m), 0, into)
            == Outcome(NoError, Msg(if m.bidder == [] then into.bidder else m.bidder,
                                    codec.merge(into.bid, codec.encode(m.bid)).coin,
                                    into.transactions + m.transactions))
  {
    hide ParseField, Field;
    var bid, txs := Field(BID, codec.encode(m.bid)), EncodeTransactions(m.transactions);
    var first := if m.bidder == [] then [] else Field(BIDDER, m.bidder);
    var m1 := if m.bidder == [] then into else into.(bidder := m.bidder);
    var m2 := m1.(bid := codec.merge(into.bid, codec.encode(m.bid)).coin);
    assert Encode(codec, m) == first + (bid + txs);
    FieldRoundTrip(codec, BID, codec.encode(m.bid), txs, |first|, m1);
    assert (bid + txs)[|bid|..] == txs;
    TransactionsRoundTrip(codec, m.transactions, |first| + |bid|, m2);
    if m.bidder == [] {
      assert first + (bid + txs) == bid + txs;
    } else {
      FieldRoundTrip(codec, BIDDER, m.bidder, bid + txs, 0, into);
      assert (first + (bid + txs))[|first|..] == bid + txs;
    }
  }

  /** The round trip: unmarshalling what was marshalled restores the message. */
  lemma RoundTrip<C(!new)>(codec: CoinCodec<C>, m: Msg<C>)
    requires RoundTrips(codec) && |Encode(codec, m)| < TWO_TO_THE_63
    ensures Parse(codec, Encode(codec, m), 0, Empty(codec)) == Outcome(NoError, m)
  {
    EncodingMerges(codec, m, Empty(codec));
    assert [] + m.transactions == m.transactions;
  }

  /** A complete field that the message does not know. */
  ghost predicate IsUnknown(u: Bytes) {
    var tag := ReadVarint(u, 0, 0);
    && tag.Value? && ToInt32(tag.value / 8) > 3 && tag.value % 8 != 4
    && SkipField(u, 0, 0) == Skipped(|u|)
  }

  lemma UnknownFieldIsSkipped<C>(codec: CoinCodec<C>, u: Bytes, at: nat, m: Msg<C>)
    requires IsUnknown(u) && at + |u| < TWO_TO_THE_63
    ensures Parse(codec, u, at, m) == Outcome(NoError, m)
  {
    hide ReadVarint, SkipField, ReadSpan, Absorb, Parse;
    assert u != [] && ParseField(codec, u, at, m) == Parsed(|u|, m);
    assert u[|u|..] == [];
    ParseUnfolds(codec, u, at, m);
    ParseUnfolds(codec, [], at + |u|, m);
  }

  /** Unknown fields between the known ones are read over. */
  lemma UnknownFieldsAreIgnored<C>(codec: CoinCodec<C>, a: Bytes, u: Bytes, b: Bytes, m: Msg<C>)
    requires |a| + |u| + |b| < TWO_TO_THE_63
    requires IsUnknown(u) && Parse(codec, a, 0, m).error.NoError?
    ensures SameOutcome(Parse(codec, a + (u + b), 0, m), Parse(codec, a + b, 0, m))
  {
    hide Parse, ParseField, IsUnknown;
    var m' := Parse(codec, a, 0, m).msg;
    ParseContinues(codec, a, b, 0, m);
    ParseContinues(codec, a, u + b, 0, m);
    SkipUnknown(codec, u, b, |a|, m');
    ParseAnywhere(codec, b, |a| + |u|, |a|, m');
  }

  lemma SkipUnknown<C>(codec: CoinCodec<C>, u: Bytes, rest: Bytes, at: nat, m: Msg<C>)
    requires IsUnknown(u) && at + |u| < TWO_TO_THE_63
    ensures Parse(codec, u + rest, at, m) == Parse(codec, rest, at + |u|, m)
  {
    UnknownFieldIsSkipped(codec, u, at, m);
    hide Parse, ParseField, IsUnknown;
    ParseContinues(codec, u, rest, at, m);
  }
}
