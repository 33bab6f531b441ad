/**
 The hand-written protobuf encoders of the OTLP load script, and a reader of the wire
 format written from the Protocol Buffers encoding specification.

 JavaScript numbers are modelled as integers; the 32-bit behaviour of the bit operators is
 written out: `x >>> k` first reduces x modulo 2^32, `x << k` reduces to a signed 32-bit value.
 */
module ProtoWire {
  import opened Sequences
  import opened Wrappers

  type Byte = x: int | 0 <= x < 0x100

  const TWO_32: int := 0x1_0000_0000
  const TWO_64: int := 0x1_0000_0000_0000_0000

  function ToUint32(v: int): (r: int)
    ensures 0 <= r < TWO_32
  {
    v % TWO_32
  }

  function ToInt32(v: int): (r: int)
    ensures -0x8000_0000 <= r < 0x8000_0000
  {
    var m := v % TWO_32;
    if m < 0x8000_0000 then m else m - TWO_32
  }

  // ---------------------------------------------------------------- encoder, as functions

  /** What encodeVarint emits for any integer, the ones it mangles included. */
  function Varint(v: int): (bytes: seq<Byte>)
    decreases if v < 0 then 0 else v
  {
    if v > 0x7f then [v % 0x80 + 0x80] + Varint(ToUint32(v) / 0x80) else [v % 0x80]
  }

  function Tag(fieldNumber: int, wireType: int): int
    requires 0 <= wireType < 8
  {
    ToInt32(fieldNumber * 8) + wireType
  }

  function LenDelim(fieldNumber: int, payload: seq<Byte>): seq<Byte> {
    Varint(Tag(fieldNumber, 2)) + Varint(|payload|) + payload
  }

  /** The eight bytes that encodeFixed64Field stores, from its two 32-bit halves. */
  function Fixed64Bytes(v: int): (bytes: seq<Byte>)
    ensures |bytes| == 8
  {
    var lo := ToUint32(v);
    var hi := ToUint32(v / TWO_32);
    [lo % 0x100, lo / 0x100 % 0x100, lo / 0x1_0000 % 0x100, lo / 0x100_0000 % 0x100,
     hi % 0x100, hi / 0x100 % 0x100, hi / 0x1_0000 % 0x100, hi / 0x100_0000 % 0x100]
  }

  function Fixed64Field(fieldNumber: int, v: int): seq<Byte> {
    Varint(Tag(fieldNumber, 1)) + Fixed64Bytes(v)
  }

  // ---------------------------------------------------------------- encoder, as the script runs it

  /** One round of the encoder: the byte it pushes and the number it goes on with. */
  lemma VarintLong(v: int) returns (group: int, high: nat)
    requires v > 0x7f
    ensures group == v % 0x80 && high == ToUint32(v) / 0x80
    ensures 0 <= group < 0x80 && high < v && high < 0x200_0000
    ensures Varint(v) == [group + 0x80] + Varint(high)
    ensures ToUint32(v) == group + 0x80 * high
    ensures v < TWO_32 ==> ToUint32(v) == v
  {
    group, high := v % 0x80, ToUint32(v) / 0x80;
    LowGroup(v);
  }

  /** The bit operations of one round: `v & 0x7f` is also the low group of `v >>> 0`. */
  lemma LowGroup(v: int)
    ensures v % 0x80 == ToUint32(v) % 0x80
  {
    var q, u := v / TWO_32, v % TWO_32;
    var high, low := u / 0x80, u % 0x80;
    LowGroupOf(v, 0x200_0000 * q + high, low);
  }

  lemma LowGroupOf(v: int, high: int, low: int)
    requires v == 0x80 * high + low && 0 <= low < 0x80
    ensures v % 0x80 == low
  {
  }

  method EncodeVarint(v: int) returns (bytes: seq<Byte>)
    ensures bytes == Varint(v)
  {
    var value := v;
    bytes := [];
    while value > 0x7f
      invariant bytes + Varint(value) == Varint(v)
      decreases if value < 0 then 0 else value
    {
      ghost var group, high := VarintLong(value);
      assert bytes + ([group + 0x80] + Varint(high)) == (bytes + [group + 0x80]) + Varint(high);
      bytes := bytes + [value % 0x80 + 0x80];
      value := ToUint32(value) / 0x80;
    }
    bytes := bytes + [value % 0x80];
  }

  /** TypedArray.prototype.set: copy `source` into `target` from `offset` on. */
  method Set(target: array<Byte>, source: seq<Byte>, offset: nat)
    requires offset + |source| <= target.Length
    modifies target
    ensures target[..offset] == old(target[..offset])
    ensures target[offset..offset + |source|] == source
    ensures target[offset + |source|..] == old(target[offset + |source|..])
  {
    for i := 0 to |source|
      invariant target[..offset] == old(target[..offset])
      invariant target[offset..offset + i] == source[..i]
      invariant target[offset + |source|..] == old(target[offset + |source|..])
    {
      target[offset + i] := source[i];
    }
  }

  method EncodeLenDelim(fieldNumber: int, payload: seq<Byte>) returns (result: array<Byte>)
    ensures fresh(result) && result[..] == LenDelim(fieldNumber, payload)
  {
    hide Varint, Tag;
    var tag := EncodeVarint(Tag(fieldNumber, 2));
    var len := EncodeVarint(|payload|);
    result := new Byte[|tag| + |len| + |payload|];
    Set(result, tag, 0);
    Set(result, len, |tag|);
    assert result[..|tag| + |len|] == tag + len by {
      assert result[..|tag| + |len|] == result[..|tag|] + result[|tag|..|tag| + |len|];
    }
    Set(result, payload, |tag| + |len|);
    assert result[..] == result[..|tag| + |len|] + result[|tag| + |len|..];
  }

  method EncodeFixed64Field(fieldNumber: int, value: int) returns (result: array<Byte>)
    ensures fresh(result) && result[..] == Fixed64Field(fieldNumber, value)
  {
    hide Varint, Tag, ToUint32;
    var tag := EncodeVarint(Tag(fieldNumber, 1));
    var lo := ToUint32(value);
    var hi := ToUint32(value / TWO_32);
    result := new Byte[|tag| + 8];
    Set(result, tag, 0);
    result[|tag| + 0] := lo % 0x100;
    result[|tag| + 1] := lo / 0x100 % 0x100;
    result[|tag| + 2] := lo / 0x1_0000 % 0x100;
    result[|tag| + 3] := lo / 0x100_0000 % 0x100;
    result[|tag| + 4] := hi % 0x100;
    result[|tag| + 5] := hi / 0x100 % 0x100;
    result[|tag| + 6] := hi / 0x1_0000 % 0x100;
    result[|tag| + 7] := hi / 0x100_0000 % 0x100;
    assert result[..|tag|] == tag;
    assert result[|tag|..] == Fixed64Bytes(value);
    assert result[..] == result[..|tag|] + result[|tag|..];
  }

  method Concat(arrays: seq<seq<Byte>>) returns (result: array<Byte>)
    ensures fresh(result) && result[..] == FlattenAll(arrays)
  {
    var total := 0;
    for i := 0 to |arrays|
      invariant total == |FlattenAll(arrays[..i])|
    {
      FlattenSnoc(arrays[..i], arrays[i]);
      assert arrays[..i + 1] == arrays[..i] + [arrays[i]];
      total := total + |arrays[i]|;
    }
    assert arrays[..|arrays|] == arrays;
    result := new Byte[total];
    var offset := 0;
    for i := 0 to |arrays|
      invariant offset == |FlattenAll(arrays[..i])|
      invariant offset <= total
      invariant result[..offset] == FlattenAll(arrays[..i])
    {
      FlattenSnoc(arrays[..i], arrays[i]);
      assert arrays[..i + 1] == arrays[..i] + [arrays[i]];
      PrefixShorter(arrays, i + 1);
      Set(result, arrays[i], offset);
      assert result[..offset + |arrays[i]|] == result[..offset] + result[offset..offset + |arrays[i]|];
      offset := offset + |arrays[i]|;
    }
  }

  lemma {:induction false} PrefixShorter(parts: seq<seq<Byte>>, i: nat)
    requires i <= |parts|
    ensures |FlattenAll(parts[..i])| <= |FlattenAll(parts)|
  {
    if i > 0 {
      assert parts[..i][1..] == parts[1..][..i - 1];
      PrefixShorter(parts[1..], i - 1);
    }
  }

  // ---------------------------------------------------------------- reader

  /** Base-128 groups, least significant first; at most `limit` bytes. Value and bytes used. */
  function ReadGroups(s: seq<Byte>, limit: nat): (r: Option<(nat, nat)>)
    ensures r.Some? ==> 1 <= r.value.1 <= |s|
    decreases limit
  {
    if s == [] || limit == 0 then None
    else if s[0] < 0x80 then Some((s[0], 1))
    else
      var (high, used) :- ReadGroups(s[1..], limit - 1);
      Some((s[0] - 0x80 + 0x80 * high, used + 1))
  }

  /** A varint is at most ten bytes long and yields 64 bits. */
  function ReadVarint(s: seq<Byte>): (r: Option<(nat, nat)>)
    ensures r.Some? ==> 1 <= r.value.1 <= |s|
  {
    var (v, used) :- ReadGroups(s, 10);
    Some((v % TWO_64, used))
  }

  function LittleEndian(s: seq<Byte>): nat {
    if s == [] then 0 else s[0] + 0x100 * LittleEndian(s[1..])
  }

  datatype Field =
    | VarintField(number: nat, value: nat)
    | Fixed64(number: nat, bits: nat)
    | Len(number: nat, payload: seq<Byte>)
    | Fixed32(number: nat, bits: nat)

  /** The part of a field that follows its key. */
  function ReadBody(number: nat, wireType: nat, s: seq<Byte>): (r: Option<(Field, nat)>)
    ensures r.Some? ==> r.value.1 <= |s|
  {
    if wireType == 0 then
      var (v, m) :- ReadVarint(s);
      Some((VarintField(number, v), m))
    else if wireType == 1 then
      if |s| < 8 then None else Some((Fixed64(number, LittleEndian(s[..8])), 8))
    else if wireType == 2 then
      var (len, m) :- ReadVarint(s);
      if m + len > |s| then None else Some((Len(number, s[m..m + len]), m + len))
    else if wireType == 5 then
      if |s| < 4 then None else Some((Fixed32(number, LittleEndian(s[..4])), 4))
    else None
  }

  function ReadField(s: seq<Byte>): (r: Option<(Field, nat)>)
    ensures r.Some? ==> 1 <= r.value.1 <= |s|
  {
    var (key, n) :- ReadVarint(s);
    var number, wireType := key / 8, key % 8;
    if number == 0 || number >= 0x2000_0000 then None
    else
      var (field, m) :- ReadBody(number, wireType, s[n..]);
      Some((field, n + m))
  }

  /** A message is a sequence of fields that uses up all its bytes. */
  function ReadFields(s: seq<Byte>): Option<seq<Field>>
    decreases |s|
  {
    if s == [] then Some([])
    else
      var (f, n) :- ReadField(s);
      var rest :- ReadFields(s[n..]);
      Some([f] + rest)
  }

  // ---------------------------------------------------------------- varints

  function Pow128(k: nat): nat {
    if k == 0 then 1 else 0x80 * Pow128(k - 1)
  }

  /** A varint below 2^32 reads back as itself whatever follows it, in at most k bytes. */
  lemma {:induction false} VarintExact(v: nat, k: nat, limit: nat, rest: seq<Byte>)
    requires v < TWO_32 && v < Pow128(k) && 1 <= k <= limit
    ensures ReadGroups(Varint(v) + rest, limit) == Some((v, |Varint(v)|))
    ensures |Varint(v)| <= k
    decreases k
  {
    hide ToUint32, Varint, ReadGroups;
    if v <= 0x7f {
      VarintShort(v, limit, rest);
    } else {
      var group, high := VarintLong(v);
      assert high < Pow128(k - 1);
      assert Pow128(0) == 1;
      VarintExact(high, k - 1, limit - 1, rest);
      ReadContinuation(group, Varint(high), rest, high, limit - 1);
    }
  }

  lemma VarintShort(v: int, limit: nat, rest: seq<Byte>)
    requires v <= 0x7f && limit > 0
    ensures |Varint(v)| == 1
    ensures ReadGroups(Varint(v) + rest, limit) == Some((v % 0x80, 1))
    ensures v >= 0 ==> v % 0x80 == v
  {
  }

  lemma ReadContinuation(group: Byte, tail: seq<Byte>, rest: seq<Byte>, high: nat, limit: nat)
    requires group < 0x80
    requires ReadGroups(tail + rest, limit) == Some((high, |tail|))
    ensures ReadGroups([group + 0x80] + tail + rest, limit + 1) == Some((group + 0x80 * high, |tail| + 1))
  {
    var s := [group + 0x80] + tail + rest;
    assert s[1..] == tail + rest;
  }

  /** The number a reader finds in the bytes that encodeVarint writes for v. */
  function VarintMeaning(v: int): int {
    if v > 0x7f then ToUint32(v) else v % 0x80
  }

  lemma PowersOf128()
    ensures Pow128(1) == 0x80
    ensures Pow128(4) == 0x1000_0000
    ensures Pow128(5) == 0x8_0000_0000
  {
    assert Pow128(1) == 0x80 * Pow128(0);
    assert Pow128(2) == 0x80 * Pow128(1);
    assert Pow128(3) == 0x80 * Pow128(2);
  }

  /** Every integer: what is written is self-delimiting, at most five bytes, and means VarintMeaning(v). */
  lemma VarintReadsAs(v: int, rest: seq<Byte>)
    ensures |Varint(v)| <= 5
    ensures ReadVarint(Varint(v) + rest) == Some((VarintMeaning(v), |Varint(v)|))
  {
    hide ToUint32, Varint, ReadGroups;
    PowersOf128();
    if v <= 0x7f {
      VarintShort(v, 10, rest);
    } else {
      var group, high := VarintLong(v);
      VarintExact(high, 4, 9, rest);
      ReadContinuation(group, Varint(high), rest, high, 9);
    }
  }

  /** encodeVarint is right exactly on [0, 2^32). */
  lemma VarintRoundTrip(v: int)
    ensures ReadVarint(Varint(v)) == Some((v, |Varint(v)|)) <==> 0 <= v < 0x1_0000_0000
  {
    hide ReadVarint, Varint;
    VarintReadsAs(v, []);
    assert Varint(v) + [] == Varint(v);
  }

  /** No byte string that reads as v is shorter than what encodeVarint writes. */
  lemma {:induction false} VarintMinimal(v: nat, s: seq<Byte>, limit: nat)
    requires v < TWO_32
    requires ReadGroups(s, limit).Some? && ReadGroups(s, limit).value.0 == v
    ensures |Varint(v)| <= ReadGroups(s, limit).value.1
    decreases limit
  {
    if v > 0x7f {
      hide ToUint32, Varint;
      var group, high := VarintLong(v);
      var (readHigh, used) := ReadGroups(s[1..], limit - 1).value;
      assert group + 0x80 * high == s[0] - 0x80 + 0x80 * readHigh;
      VarintMinimal(high, s[1..], limit - 1);
    }
  }

  // ---------------------------------------------------------------- fields

  /** The eight stored bytes are the value modulo 2^64 in little-endian order. */
  lemma Fixed64LittleEndian(v: int)
    ensures LittleEndian(Fixed64Bytes(v)) == v % 0x1_0000_0000_0000_0000
  {
    var lo, q := ToUint32(v), v / TWO_32;
    var hi, q2 := ToUint32(q), q / TWO_32;
    assert v == TWO_32 * q + lo && q == TWO_32 * q2 + hi;
    assert v == TWO_64 * q2 + (TWO_32 * hi + lo);
    assert v % TWO_64 == TWO_32 * hi + lo;
    FourBytes(lo);
    FourBytes(hi);
    var b := Fixed64Bytes(v);
    LittleEndianSplit(b[..4], b[4..]);
    assert b == b[..4] + b[4..];
    assert b[..4] == [lo % 0x100, lo / 0x100 % 0x100, lo / 0x1_0000 % 0x100, lo / 0x100_0000 % 0x100];
    assert b[4..] == [hi % 0x100, hi / 0x100 % 0x100, hi / 0x1_0000 % 0x100, hi / 0x100_0000 % 0x100];
  }

  lemma FourBytes(x: int)
    requires 0 <= x < TWO_32
    ensures LittleEndian([x % 0x100, x / 0x100 % 0x100, x / 0x1_0000 % 0x100, x / 0x100_0000 % 0x100]) == x
  {
    var b: seq<Byte> := [x % 0x100, x / 0x100 % 0x100, x / 0x1_0000 % 0x100, x / 0x100_0000 % 0x100];
    assert b[1..][1..][1..] == [x / 0x100_0000 % 0x100];
    assert LittleEndian(b[1..][1..][1..]) == x / 0x100_0000;
    assert LittleEndian(b[1..][1..]) == x / 0x1_0000;
    assert LittleEndian(b[1..]) == x / 0x100;
  }

  lemma LittleEndianSplit(a: seq<Byte>, b: seq<Byte>)
    requires |a| == 4
    ensures LittleEndian(a + b) == LittleEndian(a) + TWO_32 * LittleEndian(b)
  {
    var a1, a2, a3 := a[1..], a[2..], a[3..];
    assert (a + b)[1..] == a1 + b && (a1 + b)[1..] == a2 + b && (a2 + b)[1..] == a3 + b && (a3 + b)[1..] == b;
    assert a1[1..] == a2 && a2[1..] == a3 && a3[1..] == [];
    assert LittleEndian(a3) == a[3];
    assert LittleEndian(a2) == a[2] + 0x100 * LittleEndian(a3);
    assert LittleEndian(a1) == a[1] + 0x100 * LittleEndian(a2);
    assert LittleEndian(a3 + b) == a3[0] + 0x100 * LittleEndian(b);
    assert LittleEndian(a2 + b) == a[2] + 0x100 * LittleEndian(a3 + b);
    assert LittleEndian(a1 + b) == a[1] + 0x100 * LittleEndian(a2 + b);
  }

  /** A field's key carries its number exactly when the number is in [0, 2^28). */
  lemma TagMeaning(fieldNumber: int, wireType: int)
    requires 0 <= wireType < 8
    ensures VarintMeaning(Tag(fieldNumber, wireType)) == 8 * fieldNumber + wireType <==> 0 <= fieldNumber < 0x1000_0000
  {
  }

  /** A key written before a body is read as that key. */
  lemma KeyRead(fieldNumber: int, wireType: nat, body: seq<Byte>)
    requires 1 <= fieldNumber < 0x1000_0000 && wireType < 8
    ensures var key := Varint(Tag(fieldNumber, wireType));
            ReadField(key + body) ==
              match ReadBody(fieldNumber, wireType, body)
              case None => None
              case Some((field, m)) => Some((field, |key| + m))
  {
    hide ReadBody, Varint, Tag;
    var key := Varint(Tag(fieldNumber, wireType));
    TagMeaning(fieldNumber, wireType);
    VarintReadsAs(Tag(fieldNumber, wireType), body);
    assert (key + body)[|key|..] == body;
  }

  /** What a reader finds in any length-delimited record: the payload, cut at its length modulo 2^32. */
  lemma LenDelimReadsAs(fieldNumber: int, payload: seq<Byte>, rest: seq<Byte>)
    requires 1 <= fieldNumber < 0x1000_0000
    ensures var len := VarintMeaning(|payload|);
            len <= |payload| &&
            ReadField(LenDelim(fieldNumber, payload) + rest)
            == Some((Len(fieldNumber, payload[..len]), |LenDelim(fieldNumber, payload)| - |payload| + len))
  {
    hide ReadField, Varint, Tag, ReadVarint;
    var body := Varint(|payload|) + (payload + rest);
    assert LenDelim(fieldNumber, payload) + rest == Varint(Tag(fieldNumber, 2)) + body;
    KeyRead(fieldNumber, 2, body);
    VarintReadsAs(|payload|, payload + rest);
    var m, len := |Varint(|payload|)|, VarintMeaning(|payload|);
    assert m + len <= |body| && body[m..m + len] == payload[..len];
  }

  /** A length-delimited record reads back, whatever follows it, exactly when its payload is shorter than 2^32. */
  lemma LenDelimRead(fieldNumber: int, payload: seq<Byte>, rest: seq<Byte>)
    requires 1 <= fieldNumber < 0x1000_0000
    ensures |payload| < 0x1_0000_0000 <==>
            ReadField(LenDelim(fieldNumber, payload) + rest)
            == Some((Len(fieldNumber, payload), |LenDelim(fieldNumber, payload)|))
  {
    hide ReadField, ReadVarint, Varint, LenDelim;
    LenDelimReadsAs(fieldNumber, payload, rest);
    assert payload[..|payload|] == payload;
  }

  lemma Fixed64FieldRead(fieldNumber: int, v: int, rest: seq<Byte>)
    requires 1 <= fieldNumber < 0x1000_0000
    ensures ReadField(Fixed64Field(fieldNumber, v) + rest)
         == Some((Fixed64(fieldNumber, v % 0x1_0000_0000_0000_0000), |Fixed64Field(fieldNumber, v)|))
  {
    var body := Fixed64Bytes(v) + rest;
    assert Fixed64Field(fieldNumber, v) + rest == Varint(Tag(fieldNumber, 1)) + body;
    KeyRead(fieldNumber, 1, body);
    assert body[..8] == Fixed64Bytes(v);
    Fixed64LittleEndian(v);
  }

  /** Reading a message field by field: one length-delimited record, then the others. */
  lemma ReadLenFirst(fieldNumber: int, payload: seq<Byte>, rest: seq<Byte>, fields: seq<Field>)
    requires 1 <= fieldNumber < 0x1000_0000 && |payload| < TWO_32
    requires ReadFields(rest) == Some(fields)
    ensures ReadFields(LenDelim(fieldNumber, payload) + rest) == Some([Len(fieldNumber, payload)] + fields)
  {
    LenDelimRead(fieldNumber, payload, rest);
    assert (LenDelim(fieldNumber, payload) + rest)[|LenDelim(fieldNumber, payload)|..] == rest;
  }

  lemma ReadFixed64First(fieldNumber: int, v: int, rest: seq<Byte>, fields: seq<Field>)
    requires 1 <= fieldNumber < 0x1000_0000
    requires ReadFields(rest) == Some(fields)
    ensures ReadFields(Fixed64Field(fieldNumber, v) + rest) == Some([Fixed64(fieldNumber, v % TWO_64)] + fields)
  {
    Fixed64FieldRead(fieldNumber, v, rest);
    assert (Fixed64Field(fieldNumber, v) + rest)[|Fixed64Field(fieldNumber, v)|..] == rest;
  }
}
