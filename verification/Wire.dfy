/** The wire format as a grammar (the Protocol Buffers encoding specification, "Message Structure"): what
    the generated reader skips are exactly whole fields of it, with all the groups nested in them. */
module Wire {
  import opened Integers
  import opened Proposals
  import opened Varint
  import opened Codec

  /** A field's value, by its wire type. */
  datatype Payload =
    | VarintValue(value: nat)
    | Fixed64(bytes: Bytes)
    | Delimited(bytes: Bytes)
    | Group(fields: Fields)
    | Fixed32(bytes: Bytes)

  datatype Fields = NoFields | Fields(num: nat, payload: Payload, rest: Fields)

  /** Field numbers take 29 bits. */
  const FIELD_NUMBERS := 0x2000_0000

  ghost predicate IsWire(num: nat, p: Payload)
    decreases p
  {
    && 0 < num < FIELD_NUMBERS
    && match p
       case VarintValue(v) => v < TWO_TO_THE_64
       case Fixed64(bytes) => |bytes| == 8
       case Fixed32(bytes) => |bytes| == 4
       case Delimited(_) => true
       case Group(fields) => AreWire(fields)
  }

  ghost predicate AreWire(fs: Fields)
    decreases fs
  {
    fs.NoFields? || (IsWire(fs.num, fs.payload) && AreWire(fs.rest))
  }

  function WireType(p: Payload): nat {
    match p case VarintValue(_) => 0 case Fixed64(_) => 1 case Delimited(_) => 2 case Group(_) => 3 case Fixed32(_) => 5
  }

  const END_GROUP: nat := 4

  function Tag(num: nat, wireType: nat): Bytes {
    EncodeVarint(8 * num + wireType)
  }

  /** A field with its tag; a group ends with a tag of its own. */
  function EncodeField(num: nat, p: Payload): Bytes
    decreases p
  {
    Tag(num, WireType(p)) +
    match p
    case VarintValue(v) => EncodeVarint(v)
    case Fixed64(bytes) => bytes
    case Delimited(bytes) => EncodeVarint(|bytes|) + bytes
    case Group(fields) => EncodeFields(fields) + Tag(num, END_GROUP)
    case Fixed32(bytes) => bytes
  }

  function EncodeFields(fs: Fields): Bytes
    decreases fs
  {
    if fs.NoFields? then [] else EncodeField(fs.num, fs.payload) + EncodeFields(fs.rest)
  }

  lemma TagReads(num: nat, wireType: nat, rest: Bytes)
    requires num < FIELD_NUMBERS && wireType < 8
    ensures ReadVarint(Tag(num, wireType) + rest, 0, 0) == Value(8 * num + wireType, |Tag(num, wireType)|)
    ensures (8 * num + wireType) % 8 == wireType && (8 * num + wireType) / 8 == num
    ensures (Tag(num, wireType) + rest)[|Tag(num, wireType)|..] == rest
  {
    VarintRoundTrip(8 * num + wireType, rest);
  }

  /** One round of the skipper on a tag and the content it announces: `size` bytes in all. */
  lemma SkipOne(s: Bytes, wireType: nat, start: nat, content: nat, at: nat, depth: nat)
    requires ReadVarint(s, 0, 0).Value? && ReadVarint(s, 0, 0).size == start && ReadVarint(s, 0, 0).value % 8 == wireType
    requires SkipContent(wireType, s[start..]) == Skipped(content)
    requires at + start + content < TWO_TO_THE_63 && start + content <= |s|
    requires DepthAfter(wireType, depth) >= 0
    ensures SkipField(s, at, depth) == if DepthAfter(wireType, depth) == 0 then Skipped(at + start + content)
                                       else SkipField(s[start + content..], at + start + content, DepthAfter(wireType, depth))
  {
    hide ReadVarint, SkipContent;
  }

  lemma SkipTagged(num: nat, wireType: nat, content: Bytes, rest: Bytes, at: nat, depth: nat)
    requires num < FIELD_NUMBERS && wireType < 8
    requires SkipContent(wireType, content + rest) == Skipped(|content|)
    requires at + |Tag(num, wireType)| + |content| < TWO_TO_THE_63
    requires DepthAfter(wireType, depth) >= 0
    ensures var s, size, depth' := Tag(num, wireType) + content + rest, |Tag(num, wireType)| + |content|, DepthAfter(wireType, depth);
            SkipField(s, at, depth) == if depth' == 0 then Skipped(at + size) else SkipField(rest, at + size, depth')
  {
    hide ReadVarint, SkipContent, SkipField, Tag;
    var tag := Tag(num, wireType);
    assert tag + content + rest == tag + (content + rest);
    TagReads(num, wireType, content + rest);
    SkipOne(tag + (content + rest), wireType, |tag|, |content|, at, depth);
    assert (tag + (content + rest))[|tag| + |content|..] == rest;
  }

  lemma ContentSkips(num: nat, p: Payload, rest: Bytes) returns (content: Bytes)
    requires IsWire(num, p) && !p.Group?
    requires |EncodeField(num, p)| < TWO_TO_THE_63
    ensures EncodeField(num, p) == Tag(num, WireType(p)) + content
    ensures SkipContent(WireType(p), content + rest) == Skipped(|content|)
  {
    hide ReadVarint, EncodeVarint, Tag;
    match p
    case VarintValue(v) =>
      content := EncodeVarint(v);
      VarintRoundTrip(v, rest);
    case Delimited(bytes) =>
      content := EncodeVarint(|bytes|) + bytes;
      VarintRoundTrip(|bytes|, bytes + rest);
      assert content + rest == EncodeVarint(|bytes|) + (bytes + rest);
    case Fixed64(bytes) => content := bytes;
    case Fixed32(bytes) => content := bytes;
  }

  /** A field without a group, at any depth. */
  lemma PlainFieldSkips(num: nat, p: Payload, rest: Bytes, at: nat, depth: nat)
    requires IsWire(num, p) && !p.Group?
    requires at + |EncodeField(num, p)| < TWO_TO_THE_63
    ensures var s, end := EncodeField(num, p) + rest, at + |EncodeField(num, p)|;
            SkipField(s, at, depth) == if depth == 0 then Skipped(end) else SkipField(rest, end, depth)
  {
    hide ReadVarint, SkipContent, SkipField, Tag;
    var content := ContentSkips(num, p, rest);
    SkipTagged(num, WireType(p), content, rest, at, depth);
  }

  /** A field inside a group is passed over, with everything nested in it. */
  lemma {:induction false} NestedFieldSkips(num: nat, p: Payload, rest: Bytes, at: nat, depth: nat)
    requires IsWire(num, p) && depth > 0
    requires at + |EncodeField(num, p)| < TWO_TO_THE_63
    ensures SkipField(EncodeField(num, p) + rest, at, depth) == SkipField(rest, at + |EncodeField(num, p)|, depth)
    decreases p
  {
    hide ReadVarint, SkipContent, SkipField, Tag;
    if p.Group? {
      GroupOpens(num, p.fields, rest, at, depth);
      var start, end := Tag(num, 3), Tag(num, END_GROUP);
      NestedFieldsSkip(p.fields, end + rest, at + |start|, depth + 1);
      GroupCloses(num, rest, at + |start| + |EncodeFields(p.fields)|, depth + 1);
    } else {
      PlainFieldSkips(num, p, rest, at, depth);
    }
  }

  lemma {:induction false} NestedFieldsSkip(fs: Fields, rest: Bytes, at: nat, depth: nat)
    requires AreWire(fs) && depth > 0
    requires at + |EncodeFields(fs)| < TWO_TO_THE_63
    ensures SkipField(EncodeFields(fs) + rest, at, depth) == SkipField(rest, at + |EncodeFields(fs)|, depth)
    decreases fs
  {
    hide ReadVarint, SkipContent, SkipField, EncodeField;
    if fs.NoFields? {
      assert EncodeFields(fs) + rest == rest;
    } else {
      var field, tail := EncodeField(fs.num, fs.payload), EncodeFields(fs.rest);
      assert EncodeFields(fs) + rest == field + (tail + rest);
      NestedFieldSkips(fs.num, fs.payload, tail + rest, at, depth);
      NestedFieldsSkip(fs.rest, rest, at + |field|, depth);
    }
  }

  lemma GroupOpens(num: nat, fields: Fields, rest: Bytes, at: nat, depth: nat)
    requires num < FIELD_NUMBERS && at + |EncodeField(num, Group(fields))| < TWO_TO_THE_63
    ensures SkipField(EncodeField(num, Group(fields)) + rest, at, depth)
            == SkipField(EncodeFields(fields) + (Tag(num, END_GROUP) + rest), at + |Tag(num, 3)|, depth + 1)
    ensures |EncodeField(num, Group(fields))| == |Tag(num, 3)| + |EncodeFields(fields)| + |Tag(num, END_GROUP)|
  {
    hide ReadVarint, SkipField, Tag, EncodeFields;
    var inner := EncodeFields(fields) + (Tag(num, END_GROUP) + rest);
    assert EncodeField(num, Group(fields)) + rest == Tag(num, 3) + [] + inner;
    SkipTagged(num, 3, [], inner, at, depth);
  }

  lemma GroupCloses(num: nat, rest: Bytes, at: nat, depth: nat)
    requires num < FIELD_NUMBERS && depth > 0 && at + |Tag(num, END_GROUP)| < TWO_TO_THE_63
    ensures var end := at + |Tag(num, END_GROUP)|;
            SkipField(Tag(num, END_GROUP) + rest, at, depth) == if depth == 1 then Skipped(end) else SkipField(rest, end, depth - 1)
  {
    hide ReadVarint, SkipField, Tag;
    assert Tag(num, END_GROUP) + [] + rest == Tag(num, END_GROUP) + rest;
    SkipTagged(num, END_GROUP, [], rest, at, depth);
  }

  /** The skipper takes exactly one whole field, with all the groups nested in it, whatever follows. */
  lemma WholeFieldSkips(num: nat, p: Payload, rest: Bytes)
    requires IsWire(num, p) && |EncodeField(num, p)| < TWO_TO_THE_63
    ensures SkipField(EncodeField(num, p) + rest, 0, 0) == Skipped(|EncodeField(num, p)|)
  {
    hide ReadVarint, SkipContent, SkipField, Tag;
    if p.Group? {
      GroupOpens(num, p.fields, rest, 0, 0);
      var start, end := Tag(num, 3), Tag(num, END_GROUP);
      NestedFieldsSkip(p.fields, end + rest, |start|, 1);
      GroupCloses(num, rest, |start| + |EncodeFields(p.fields)|, 1);
    } else {
      PlainFieldSkips(num, p, rest, 0, 0);
    }
  }

  lemma FieldStartsWithTag(num: nat, p: Payload) returns (content: Bytes)
    ensures EncodeField(num, p) == Tag(num, WireType(p)) + content
  {
    content := EncodeField(num, p)[|Tag(num, WireType(p))|..];
  }

  /** Every field with a number above the message's own is one the message does not know. */
  lemma OtherFieldsAreUnknown(num: nat, p: Payload)
    requires IsWire(num, p) && num > 3 && |EncodeField(num, p)| < TWO_TO_THE_63
    ensures IsUnknown(EncodeField(num, p))
  {
    hide ReadVarint, SkipField, Tag, EncodeField;
    var content := FieldStartsWithTag(num, p);
    TagReads(num, WireType(p), content);
    WholeFieldSkips(num, p, []);
    assert EncodeField(num, p) + [] == EncodeField(num, p);
  }

  /** So any such field, anywhere between the fields of a message, is read over. */
  lemma OtherFieldsAreIgnored<C>(codec: CoinCodec<C>, a: Bytes, num: nat, p: Payload, b: Bytes, m: Msg<C>)
    requires IsWire(num, p) && num > 3 && |a| + |EncodeField(num, p)| + |b| < TWO_TO_THE_63
    requires Parse(codec, a, 0, m).error.NoError?
    ensures SameOutcome(Parse(codec, a + (EncodeField(num, p) + b), 0, m), Parse(codec, a + b, 0, m))
  {
    hide Parse, EncodeField, IsUnknown;
    OtherFieldsAreUnknown(num, p);
    UnknownFieldsAreIgnored(codec, a, EncodeField(num, p), b, m);
  }

  // ---------------------------------------------------------------- the message's own fields

  /** The bundle, as fields with number 3. */
  function BundleFields(txs: seq<Bytes>): Fields {
    if txs == [] then NoFields else Fields(3, Delimited(txs[0]), BundleFields(txs[1..]))
  }

  /** The message, as fields: the bidder under number 1 unless it is empty, the bid under 2, the bundle. */
  function MessageFields<C>(codec: CoinCodec<C>, m: Msg<C>): Fields {
    var others := Fields(2, Delimited(codec.encode(m.bid)), BundleFields(m.transactions));
    if m.bidder == [] then others else Fields(1, Delimited(m.bidder), others)
  }

  /** The three keys are the tags of length-delimited fields with the numbers 1, 2 and 3. */
  lemma KeysAreTags()
    ensures Tag(1, 2) == [BIDDER] && Tag(2, 2) == [BID] && Tag(3, 2) == [TRANSACTION]
  {
  }

  lemma FieldIsWire(num: nat, key: Byte, content: Bytes)
    requires Tag(num, 2) == [key]
    ensures Field(key, content) == EncodeField(num, Delimited(content))
  {
    assert [key] + EncodeVarint(|content|) + content == [key] + (EncodeVarint(|content|) + content);
  }

  lemma {:induction false} BundleIsWire(txs: seq<Bytes>)
    ensures EncodeTransactions(txs) == EncodeFields(BundleFields(txs))
  {
    if txs != [] {
      KeysAreTags();
      FieldIsWire(3, TRANSACTION, txs[0]);
      BundleIsWire(txs[1..]);
    }
  }

  /** What is written is the message's fields in the wire grammar, with their numbers. */
  lemma MessageIsWire<C>(codec: CoinCodec<C>, m: Msg<C>)
    ensures Encode(codec, m) == EncodeFields(MessageFields(codec, m))
  {
    KeysAreTags();
    FieldIsWire(1, BIDDER, m.bidder);
    FieldIsWire(2, BID, codec.encode(m.bid));
    BundleIsWire(m.transactions);
    hide Tag, EncodeField, Field, EncodeTransactions, BundleFields;
    var bundle := BundleFields(m.transactions);
    var bid := Delimited(codec.encode(m.bid));
    assert EncodeFields(Fields(2, bid, bundle)) == EncodeField(2, bid) + EncodeFields(bundle);
    if m.bidder != [] {
      assert Field(BIDDER, m.bidder) + Field(BID, codec.encode(m.bid)) + EncodeTransactions(m.transactions)
             == Field(BIDDER, m.bidder) + (Field(BID, codec.encode(m.bid)) + EncodeTransactions(m.transactions));
    } else {
      assert [] + Field(BID, codec.encode(m.bid)) == Field(BID, codec.encode(m.bid));
    }
  }

  // ---------------------------------------------------------------- malformed input

  /** Tags that the reader refuses, wherever they stand: no tag at all, an end of a group, a number that is
      not positive in 32 bits, and one of the message's own numbers with another wire type. */
  lemma RefusedTags<C>(codec: CoinCodec<C>, s: Bytes, at: nat, m: Msg<C>)
    ensures ReadVarint(s, 0, 0).Overflow? ==> ParseField(codec, s, at, m) == Failed(IntOverflow, m)
    ensures ReadVarint(s, 0, 0).Truncated? ==> ParseField(codec, s, at, m) == Failed(UnexpectedEOF, m)
    ensures ReadVarint(s, 0, 0).Value? ==>
              var num, wireType := ToInt32(ReadVarint(s, 0, 0).value / 8), ReadVarint(s, 0, 0).value % 8;
              && (wireType == 4 ==> ParseField(codec, s, at, m) == Failed(EndGroup, m))
              && (wireType != 4 && num <= 0 ==> ParseField(codec, s, at, m) == Failed(IllegalTag, m))
              && (1 <= num <= 3 && wireType !in {2, 4} ==> ParseField(codec, s, at, m) == Failed(WrongWireType, m))
  {
    hide ReadVarint, SkipField, ReadSpan;
  }

  /** A length-delimited field of the message whose length is negative in 64 bits, or reaches past the end. */
  lemma RefusedLengths<C>(codec: CoinCodec<C>, key: Byte, num: nat, length: nat, content: Bytes, at: nat, m: Msg<C>)
    requires 1 <= num <= 3 && [key] == Tag(num, 2) && length < TWO_TO_THE_64
    requires at + 1 + |EncodeVarint(length)| + |content| < TWO_TO_THE_63
    ensures var r := ParseField(codec, [key] + (EncodeVarint(length) + content), at, m);
            && (length >= TWO_TO_THE_63 ==> r == Failed(InvalidLength, m))
            && (|content| < length < TWO_TO_THE_63 ==> r.Failed? && r.msg == m && r.error in {UnexpectedEOF, InvalidLength})
  {
    TagReads(num, 2, EncodeVarint(length) + content);
    VarintRoundTrip(length, content);
    hide ReadVarint, SkipField, Absorb, Tag, EncodeVarint;
    assert ([key] + (EncodeVarint(length) + content))[1..] == EncodeVarint(length) + content;
  }

  /** Fields that the skipper refuses: wire types without a meaning, and an end of a group that was not opened. */
  lemma RefusedBySkipper(s: Bytes, at: nat, depth: nat)
    requires s != [] && ReadVarint(s, 0, 0).Value?
    ensures ReadVarint(s, 0, 0).value % 8 in {6, 7} ==> SkipField(s, at, depth) == SkipFailed(IllegalWireType)
    ensures ReadVarint(s, 0, 0).value % 8 == 4 && depth == 0 ==> SkipField(s, at, depth) == SkipFailed(UnexpectedEndOfGroup)
  {
    hide ReadVarint;
  }
}
