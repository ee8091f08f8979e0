/** Rows as bytes: a header with one type byte per column, then the values. */
module Records {
  import opened Entries
  import opened ByteOrder

  /** A column value; strings are their encoded bytes. */
  datatype Value = Null | Int(i: int) | Str(bytes: Bytes)

  datatype Coded<T> = Ok(value: T) | Unpackable | UnknownType | Truncated

  const INT_MIN := -0x8000_0000
  const INT_MAX := 0x7FFF_FFFF

  /** A signed 32-bit integer in its unsigned form, and back. */
  function ToUnsigned(i: int): nat
    requires INT_MIN <= i <= INT_MAX
  {
    if i < 0 then i + LIMIT32 else i
  }

  function ToSigned(n: nat): int {
    if n > INT_MAX then n - LIMIT32 else n
  }

  function TypeOf(v: Value): Byte {
    match v
    case Null => 0
    case Int(_) => 1
    case Str(_) => 2
  }

  /** The value fits its field. */
  predicate Packs(v: Value) {
    match v
    case Null => true
    case Int(i) => INT_MIN <= i <= INT_MAX
    case Str(bytes) => |bytes| < LIMIT16
  }

  function EncodeValue(v: Value): Bytes
    requires Packs(v)
  {
    match v
    case Null => []
    case Int(i) => LE(ToUnsigned(i), 4)
    case Str(bytes) => LE(|bytes|, 2) + bytes
  }

  ghost predicate AllPack(vs: seq<Value>) {
    forall v :: v in vs ==> Packs(v)
  }

  function TypeBytes(vs: seq<Value>): (r: Bytes)
    ensures |r| == |vs|
  {
    seq(|vs|, i requires 0 <= i < |vs| => TypeOf(vs[i]))
  }

  /** The value bytes of a row whose values fit. */
  ghost function Payload(vs: seq<Value>): Bytes
    requires AllPack(vs)
    decreases |vs|
  {
    if vs == [] then [] else Payload(vs[..|vs| - 1]) + EncodeValue(vs[|vs| - 1])
  }

  ghost function RowBytes(vs: seq<Value>): Bytes
    requires AllPack(vs)
  {
    LE(|vs| + 2, 2) + (LE(|vs|, 2) + TypeBytes(vs)) + Payload(vs)
  }

  /** Encode a row: it fails exactly when a value or the header does not fit its field. */
  method EncodeRecord(vs: seq<Value>) returns (r: Coded<Bytes>)
    ensures r == if AllPack(vs) && |vs| + 2 < LIMIT16 then Ok(RowBytes(vs)) else Unpackable
    ensures r.Ok? <==>
              && |vs| < 0xFFFE
              && forall v :: v in vs ==>
                   (v.Int? ==> -0x8000_0000 <= v.i < 0x8000_0000) && (v.Str? ==> |v.bytes| < 0x1_0000)
    ensures r.Ok? || r == Unpackable
  {
    var types, payload: Bytes := [], [];
    for i := 0 to |vs|
      invariant AllPack(vs[..i]) && payload == Payload(vs[..i]) && types == TypeBytes(vs[..i])
    {
      assert vs[..i + 1] == vs[..i] + [vs[i]];
      if !Packs(vs[i]) {
        assert vs[i] in vs;
        return Unpackable;
      }
      assert vs[..i + 1][..i] == vs[..i];
      types := types + [TypeOf(vs[i])];
      payload := payload + EncodeValue(vs[i]);
    }
    assert vs[..|vs|] == vs;
    if |vs| >= LIMIT16 {
      return Unpackable;
    }
    var header := LE(|vs|, 2) + types;
    if |header| >= LIMIT16 {
      return Unpackable;
    }
    r := Ok(LE(|header|, 2) + header + payload);
  }

  /** The bytes of a value: a 32-bit integer in two's complement, lowest byte first; a string with its length before
      it. */
  lemma ValueBytes(v: Value)
    requires Packs(v)
    ensures TypeOf(v) == match v case Null => 0 case Int(_) => 1 case Str(_) => 2
    ensures v.Null? ==> EncodeValue(v) == []
    ensures v.Int? ==> |EncodeValue(v)| == 4 && (FromLE(EncodeValue(v)) - v.i) % 0x1_0000_0000 == 0
    ensures v.Str? ==> |EncodeValue(v)| == 2 + |v.bytes| && FromLE(EncodeValue(v)[..2]) == |v.bytes|
                       && EncodeValue(v)[2..] == v.bytes
  {
    match v
    case Null =>
    case Int(i) => Trip4(ToUnsigned(i));
    case Str(bytes) => Trip2(|bytes|);
  }

  /** The front of a row: the size of the header, the number of columns, and a type byte each. */
  lemma {:induction false} RowHeader(vs: seq<Value>, i: nat)
    requires AllPack(vs) && |vs| + 2 < LIMIT16 && i < |vs|
    ensures var row := RowBytes(vs);
            && |row| >= 4 + |vs| && FromLE(row[..2]) == 2 + |vs| && FromLE(row[2..4]) == |vs|
            && row[4 + i] == TypeOf(vs[i])
  {
    Trip2(|vs| + 2);
    Trip2(|vs|);
    HeaderParts(LE(|vs| + 2, 2), LE(|vs|, 2), TypeBytes(vs), Payload(vs), i);
  }

  /** The values follow in order. */
  lemma {:induction false} RowLayout(vs: seq<Value>, i: nat)
    requires AllPack(vs) && |vs| + 2 < LIMIT16 && i < |vs|
    ensures var row, at := RowBytes(vs), 4 + |vs| + |Payload(vs[..i])|;
            at + |EncodeValue(vs[i])| <= |row| && row[at..at + |EncodeValue(vs[i])|] == EncodeValue(vs[i])
  {
    var rest := PayloadParts(vs, i);
    RowParts(LE(|vs| + 2, 2) + (LE(|vs|, 2) + TypeBytes(vs)), Payload(vs[..i]), EncodeValue(vs[i]), rest);
  }

  lemma RowParts(head: Bytes, before: Bytes, e: Bytes, rest: Bytes)
    ensures var row, at := head + (before + e + rest), |head| + |before|;
            at + |e| <= |row| && row[at..at + |e|] == e
  {
    assert head + (before + e + rest) == (head + before) + e + rest;
    Middle(head + before, e, rest);
  }

  lemma HeaderParts(size: Bytes, count: Bytes, types: Bytes, payload: Bytes, i: nat)
    requires |size| == |count| == 2 && i < |types|
    ensures var row := size + (count + types) + payload;
            row[..2] == size && row[2..4] == count && row[4 + i] == types[i]
  {
  }

  lemma Middle(a: Bytes, m: Bytes, b: Bytes)
    ensures (a + m + b)[|a|..|a| + |m|] == m
  {
  }

  lemma {:induction false} PayloadParts(vs: seq<Value>, i: nat) returns (rest: Bytes)
    requires AllPack(vs) && i < |vs|
    ensures Payload(vs) == Payload(vs[..i]) + EncodeValue(vs[i]) + rest
    decreases |vs|
  {
    var n := |vs| - 1;
    PayloadLast(vs);
    if i == n {
      rest := [];
      assert Payload(vs) + [] == Payload(vs);
    } else {
      assert vs[..n][..i] == vs[..i] && vs[..n][i] == vs[i];
      var before := PayloadParts(vs[..n], i);
      rest := before + EncodeValue(vs[n]);
      FourParts(Payload(vs[..i]), EncodeValue(vs[i]), before, EncodeValue(vs[n]));
    }
  }

  lemma PayloadLast(vs: seq<Value>)
    requires AllPack(vs) && vs != []
    ensures AllPack(vs[..|vs| - 1]) && Payload(vs) == Payload(vs[..|vs| - 1]) + EncodeValue(vs[|vs| - 1])
  {
  }

  lemma FourParts(a: Bytes, b: Bytes, c: Bytes, d: Bytes)
    ensures a + b + c + d == a + b + (c + d)
  {
  }

  // ---- Decoding ---------------------------------------------------------------------------

  /** A slice that may run over the end. */
  function Slice(data: Bytes, from: nat, to: nat): Bytes {
    if from >= |data| || to <= from then [] else if to > |data| then data[from..] else data[from..to]
  }

  datatype Step = Step(value: Value, next: nat)

  /** One value of a known type at an offset. */
  function DecodeValue(t: Byte, data: Bytes, at: nat): Coded<Step> {
    if t == 0 then Ok(Step(Null, at))
    else if t == 1 then
      var f := Slice(data, at, at + 4);
      if |f| < 4 then Truncated else Ok(Step(Int(ToSigned(FromLE(f))), at + 4))
    else if t == 2 then
      var f := Slice(data, at, at + 2);
      if |f| < 2 then Truncated
      else Ok(Step(Str(Slice(data, at + 2, at + 2 + FromLE(f))), at + 2 + FromLE(f)))
    else UnknownType
  }

  /** What is read at an offset of any bytes: an integer needs four of them, a string two for its length, and takes what
      there is of the rest. */
  lemma ValueRead(t: Byte, data: Bytes, at: nat)
    ensures t == 0 ==> DecodeValue(t, data, at) == Ok(Step(Null, at))
    ensures t == 1 ==>
              if at + 4 <= |data| then
                var r := DecodeValue(t, data, at);
                && r.Ok? && r.value.next == at + 4 && r.value.value.Int?
                && -0x8000_0000 <= r.value.value.i < 0x8000_0000
                && (FromLE(data[at..at + 4]) - r.value.value.i) % 0x1_0000_0000 == 0
              else DecodeValue(t, data, at) == Truncated
    ensures t == 2 ==>
              if at + 2 <= |data| then
                var n := FromLE(data[at..at + 2]);
                DecodeValue(t, data, at) ==
                Ok(Step(Str(if at + 2 + n <= |data| then data[at + 2..at + 2 + n] else data[at + 2..]), at + 2 + n))
              else DecodeValue(t, data, at) == Truncated
    ensures t > 2 ==> DecodeValue(t, data, at) == UnknownType
  {
    if t == 1 && at + 4 <= |data| {
      LEBack(data[at..at + 4]);
      Widths();
      assert Slice(data, at, at + 4) == data[at..at + 4];
    }
    if t == 2 && at + 2 <= |data| {
      var n := FromLE(data[at..at + 2]);
      assert Slice(data, at, at + 2) == data[at..at + 2];
      assert Slice(data, at + 2, at + 2 + n) ==
             if at + 2 + n <= |data| then data[at + 2..at + 2 + n] else data[at + 2..];
    }
  }

  function DecodeValues(types: Bytes, data: Bytes, at: nat): Coded<seq<Value>>
    decreases |types|
  {
    if types == [] then Ok([])
    else
      match DecodeValue(types[0], data, at)
      case Ok(s) =>
        (match DecodeValues(types[1..], data, s.next)
         case Ok(rest) => Ok([s.value] + rest)
         case Unpackable => Unpackable
         case UnknownType => UnknownType
         case Truncated => Truncated)
      case Unpackable => Unpackable
      case UnknownType => UnknownType
      case Truncated => Truncated
  }

  function KnownTypes(types: Bytes): bool {
    forall t :: t in types ==> t <= 2
  }

  /** Decode a row from the front of a byte string. */
  method DecodeRecord(data: Bytes) returns (r: Coded<seq<Value>>)
    ensures r == Decoded(data)
  {
    if |data| < 4 {
      return Truncated;
    }
    var columns := FromLE(Slice(data, 2, 4));
    var types := Slice(data, 4, 4 + columns);
    var known := CheckTypes(types);
    if !known {
      return UnknownType;
    }
    r := DecodeColumns(types, data, 4 + columns);
  }

  method CheckTypes(types: Bytes) returns (known: bool)
    ensures known == KnownTypes(types)
  {
    for i := 0 to |types|
      invariant forall j :: 0 <= j < i ==> types[j] <= 2
    {
      if types[i] > 2 {
        assert types[i] in types;
        return false;
      }
    }
    known := true;
  }

  method DecodeColumns(types: Bytes, data: Bytes, from: nat) returns (r: Coded<seq<Value>>)
    ensures r == DecodeValues(types, data, from)
  {
    var at, values: seq<Value> := from, [];
    JoinNone(DecodeValues(types, data, at));
    assert types[0..] == types;
    for i := 0 to |types|
      invariant Joined(values, DecodeValues(types[i..], data, at)) == DecodeValues(types, data, from)
    {
      assert types[i..][1..] == types[i + 1..];
      match DecodeValue(types[i], data, at) {
        case Ok(s) =>
          JoinStep(values, s.value, DecodeValues(types[i + 1..], data, s.next));
          values := values + [s.value];
          at := s.next;
        case Unpackable => return Unpackable;
        case UnknownType => return UnknownType;
        case Truncated => return Truncated;
      }
    }
    assert values + [] == values;
    r := Ok(values);
  }

  function Joined(values: seq<Value>, rest: Coded<seq<Value>>): Coded<seq<Value>> {
    match rest
    case Ok(more) => Ok(values + more)
    case Unpackable => Unpackable
    case UnknownType => UnknownType
    case Truncated => Truncated
  }

  lemma JoinNone(rest: Coded<seq<Value>>)
    ensures Joined([], rest) == rest
  {
    if rest.Ok? { assert [] + rest.value == rest.value; }
  }

  lemma JoinStep(values: seq<Value>, v: Value, rest: Coded<seq<Value>>)
    ensures Joined(values, Joined([v], rest)) == Joined(values + [v], rest)
  {
    if rest.Ok? {
      assert values + ([v] + rest.value) == values + [v] + rest.value;
    }
  }

  function Decoded(data: Bytes): Coded<seq<Value>> {
    if |data| < 4 then Truncated
    else
      var columns := FromLE(Slice(data, 2, 4));
      var types := Slice(data, 4, 4 + columns);
      if !KnownTypes(types) then UnknownType else DecodeValues(types, data, 4 + columns)
  }

  // ---- Round trip ----------------------------------------------------------------------------

  lemma SliceAt(a: Bytes, m: Bytes, b: Bytes)
    ensures Slice(a + m + b, |a|, |a| + |m|) == m
  {
  }

  lemma IntTrip(i: int, a: Bytes, b: Bytes)
    requires INT_MIN <= i <= INT_MAX
    ensures DecodeValue(1, a + LE(ToUnsigned(i), 4) + b, |a|) == Ok(Step(Int(i), |a| + 4))
  {
    var f := LE(ToUnsigned(i), 4);
    SliceAt(a, f, b);
    Trip4(ToUnsigned(i));
    assert Slice(a + f + b, |a|, |a| + 4) == f;
  }

  lemma StrAt(data: Bytes, at: nat, f: Bytes, bytes: Bytes)
    requires Slice(data, at, at + 2) == f && |f| == 2 && FromLE(f) == |bytes|
             && Slice(data, at + 2, at + 2 + |bytes|) == bytes
    ensures DecodeValue(2, data, at) == Ok(Step(Str(bytes), at + 2 + |bytes|))
  {
  }

  lemma StrSlices(data: Bytes, at: nat, a: Bytes, f: Bytes, bytes: Bytes, b: Bytes)
    requires data == a + (f + bytes) + b && |f| == 2 && at == |a|
    ensures Slice(data, at, at + 2) == f && Slice(data, at + 2, at + 2 + |bytes|) == bytes
  {
    assert data == a + f + (bytes + b);
    SliceAt(a, f, bytes + b);
    assert data == (a + f) + bytes + b;
    SliceAt(a + f, bytes, b);
  }

  lemma StrTrip(data: Bytes, at: nat, bytes: Bytes, a: Bytes, b: Bytes)
    requires |bytes| < LIMIT16 && at == |a|
    requires data == a + (LE(|bytes|, 2) + bytes) + b
    ensures DecodeValue(2, data, at) == Ok(Step(Str(bytes), at + 2 + |bytes|))
  {
    var f := LE(|bytes|, 2);
    Trip2(|bytes|);
    StrSlices(data, at, a, f, bytes, b);
    StrAt(data, at, f, bytes);
  }

  /** One encoded value, anywhere in a byte string, is read back, and reading goes on right after it. */
  lemma ValueTrip(data: Bytes, at: nat, v: Value, a: Bytes, b: Bytes)
    requires Packs(v) && data == a + EncodeValue(v) + b && at == |a|
    ensures DecodeValue(TypeOf(v), data, at) == Ok(Step(v, at + |EncodeValue(v)|))
  {
    match v
    case Null =>
    case Int(i) => IntTrip(i, a, b);
    case Str(bytes) => StrTrip(data, at, bytes, a, b);
  }

  ghost function PayloadFrom(vs: seq<Value>): Bytes
    requires AllPack(vs)
    decreases |vs|
  {
    if vs == [] then [] else EncodeValue(vs[0]) + PayloadFrom(vs[1..])
  }

  lemma {:induction false} PayloadSame(vs: seq<Value>)
    requires AllPack(vs)
    ensures Payload(vs) == PayloadFrom(vs)
    decreases |vs|
  {
    if vs != [] {
      var n := |vs| - 1;
      PayloadSame(vs[..n]);
      PayloadSnoc(vs[..n], vs[n]);
      assert vs == vs[..n] + [vs[n]];
    }
  }

  lemma {:induction false} PayloadSnoc(vs: seq<Value>, v: Value)
    requires AllPack(vs) && Packs(v)
    ensures PayloadFrom(vs + [v]) == PayloadFrom(vs) + EncodeValue(v)
    decreases |vs|
  {
    if vs == [] {
      assert vs + [v] == [v] && [v][1..] == [];
    } else {
      assert (vs + [v])[1..] == vs[1..] + [v];
      PayloadSnoc(vs[1..], v);
    }
  }

  lemma {:induction false} ValuesTrip(data: Bytes, at: nat, vs: seq<Value>, a: Bytes, b: Bytes)
    requires AllPack(vs) && data == a + PayloadFrom(vs) + b && at == |a|
    ensures DecodeValues(TypeBytes(vs), data, at) == Ok(vs)
    decreases |vs|
  {
    if vs != [] {
      var e, rest := EncodeValue(vs[0]), PayloadFrom(vs[1..]);
      Regroup(a, e, rest, b);
      ValueTrip(data, at, vs[0], a, rest + b);
      ValuesTrip(data, at + |e|, vs[1..], a + e, b);
      TypesCons(vs);
      DecodeCons(TypeOf(vs[0]), TypeBytes(vs[1..]), data, at, Step(vs[0], at + |e|));
    }
  }

  lemma TypesCons(vs: seq<Value>)
    requires vs != []
    ensures TypeBytes(vs) == [TypeOf(vs[0])] + TypeBytes(vs[1..]) && vs == [vs[0]] + vs[1..]
  {
  }

  lemma Regroup(a: Bytes, e: Bytes, rest: Bytes, b: Bytes)
    ensures a + (e + rest) + b == a + e + (rest + b) == (a + e) + rest + b
  {
  }

  lemma DecodeCons(t: Byte, types: Bytes, data: Bytes, at: nat, s: Step)
    requires DecodeValue(t, data, at) == Ok(s)
    ensures DecodeValues([t] + types, data, at) == Joined([s.value], DecodeValues(types, data, s.next))
  {
    assert ([t] + types)[1..] == types;
  }

  /** A row that fits is read back whatever bytes follow it: any number and mix of columns. */
  lemma {:induction false} RecordTrip(vs: seq<Value>, rest: Bytes)
    requires AllPack(vs) && |vs| + 2 < LIMIT16
    ensures Decoded(RowBytes(vs) + rest) == Ok(vs)
  {
    var data := RowBytes(vs) + rest;
    var size, columns, types := LE(|vs| + 2, 2), LE(|vs|, 2), TypeBytes(vs);
    RowGroups(size, columns, types, Payload(vs), rest);
    RecordHeader(data, size, columns, types, Payload(vs) + rest);
    Trip2(|vs|);
    PayloadSame(vs);
    ValuesTrip(data, 4 + |vs|, vs, size + columns + types, rest);
    assert KnownTypes(types);
  }

  lemma RowGroups(size: Bytes, columns: Bytes, types: Bytes, payload: Bytes, rest: Bytes)
    ensures var data := size + (columns + types) + payload + rest;
            data == size + (columns + types) + (payload + rest) && data == (size + columns + types) + payload + rest
  {
  }

  lemma RecordHeader(data: Bytes, size: Bytes, columns: Bytes, types: Bytes, rest: Bytes)
    requires |size| == 2 && |columns| == 2 && data == size + (columns + types) + rest
    ensures |data| >= 4 && Slice(data, 2, 4) == columns && Slice(data, 4, 4 + |types|) == types
  {
    assert data == size + columns + (types + rest);
    SliceAt(size, columns, types + rest);
    assert data == (size + columns) + types + rest;
    SliceAt(size + columns, types, rest);
  }
}
