/** The descriptor of one firmware block, stored as two records: a
    descriptor type record (id 6) listing the types, and a descriptor data
    record (id 7) holding, in the same order, the values they announce. */
module Descriptor {
  import opened Bytes
  import opened Wrappers
  import opened Header
  import T = DescType
  import D = DescData

  /** `DescriptorTypeRecord::Simple`. */
  datatype DescriptorTypeRecord = TypeRecord(types: seq<T.DescriptorType>)
  {
    /** `len`: the number of types. Each code takes 2 bytes, or 4 for an
        Other type, so the count bounds the record's size both ways. */
    function Len(): (n: nat)
      ensures 2 * n <= TypesSize(types) <= 4 * n
    {
      TypesSizeBounds(types);
      |types|
    }
  }

  /** `DescriptorRecord::Simple`. */
  datatype DescriptorRecord = DataRecord(descs: seq<D.DescriptorData>)

  // ---------------------------------------------------------------------
  // Sizes

  /** The bytes a list of types occupies, without 16-bit truncation. */
  function TypesSize(ts: seq<T.DescriptorType>): nat
  {
    if ts == [] then 0 else ts[0].Len() as nat + TypesSize(ts[1..])
  }

  /** The bytes of the values a list of types announces, without 16-bit
      truncation. */
  function DataSize(ts: seq<T.DescriptorType>): nat
  {
    if ts == [] then 0 else ts[0].DataLen() as nat + DataSize(ts[1..])
  }

  /** Every code takes 2 or 4 bytes. */
  lemma {:induction false} TypesSizeBounds(ts: seq<T.DescriptorType>)
    ensures 2 * |ts| <= TypesSize(ts) <= 4 * |ts|
  {
    if ts != [] {
      TypesSizeBounds(ts[1..]);
    }
  }

  lemma {:induction false} TypesSizeAppend(a: seq<T.DescriptorType>, b: seq<T.DescriptorType>)
    ensures TypesSize(a + b) == TypesSize(a) + TypesSize(b)
  {
    if a == [] {
      assert a + b == b;
    } else {
      assert (a + b)[1..] == a[1..] + b;
      TypesSizeAppend(a[1..], b);
    }
  }

  lemma {:induction false} DataSizeAppend(a: seq<T.DescriptorType>, b: seq<T.DescriptorType>)
    ensures DataSize(a + b) == DataSize(a) + DataSize(b)
  {
    if a == [] {
      assert a + b == b;
    } else {
      assert (a + b)[1..] == a[1..] + b;
      DataSizeAppend(a[1..], b);
    }
  }

  /** `DescriptorTypeRecord::data_len`: the sum, as a u16, of the data
      lengths; the sum wraps past 0xFFFF. */
  function DataLen(tr: DescriptorTypeRecord): (n: u16)
    ensures (n as int - DataSize(tr.types)) % 0x1_0000 == 0
    ensures DataSize(tr.types) < 0x1_0000 ==> n as int == DataSize(tr.types)
  {
    DataSize(tr.types) % 0x1_0000
  }

  /** The type of each value, in order. */
  function TypesOf(ds: seq<D.DescriptorData>): (ts: seq<T.DescriptorType>)
    ensures |ts| == |ds|
  {
    if ds == [] then [] else [ds[0].TypeOf()] + TypesOf(ds[1..])
  }

  lemma {:induction false} TypesOfIndex(ds: seq<D.DescriptorData>, i: nat)
    requires i < |ds|
    ensures TypesOf(ds)[i] == ds[i].TypeOf()
  {
    if i > 0 {
      TypesOfIndex(ds[1..], i - 1);
    }
  }

  lemma {:induction false} TypesOfAppend(a: seq<D.DescriptorData>, b: seq<D.DescriptorData>)
    ensures TypesOf(a + b) == TypesOf(a) + TypesOf(b)
  {
    if a == [] {
      assert a + b == b;
    } else {
      assert (a + b)[0] == a[0] && (a + b)[1..] == a[1..] + b;
      TypesOfAppend(a[1..], b);
    }
  }

  /** `DescriptorRecord::record_type_len`: the u16 sum of the type lengths. */
  function RecordTypeLen(dr: DescriptorRecord): (n: u16)
    ensures (n as int - TypesSize(TypesOf(dr.descs))) % 0x1_0000 == 0
    ensures TypesSize(TypesOf(dr.descs)) < 0x1_0000 ==> n as int == TypesSize(TypesOf(dr.descs))
  {
    TypesSize(TypesOf(dr.descs)) % 0x1_0000
  }

  /** `DescriptorRecord::record_data_len`: the u16 sum of the value lengths. */
  function RecordDataLen(dr: DescriptorRecord): (n: u16)
    ensures (n as int - DataSize(TypesOf(dr.descs))) % 0x1_0000 == 0
    ensures DataSize(TypesOf(dr.descs)) < 0x1_0000 ==> n as int == DataSize(TypesOf(dr.descs))
  {
    DataSize(TypesOf(dr.descs)) % 0x1_0000
  }

  /** The data length a descriptor record announces is the one its type
      record computes. */
  lemma RecordDataLenOfTypes(dr: DescriptorRecord)
    ensures RecordDataLen(dr) == DataLen(TypeRecord(TypesOf(dr.descs)))
  {
  }

  // ---------------------------------------------------------------------
  // Encodings

  /** The payload of a type record: the types' bytes, in order. */
  function EncodeTypes(e: Endian, ts: seq<T.DescriptorType>): (r: seq<byte>)
    ensures |r| == TypesSize(ts)
  {
    if ts == [] then [] else T.TypeBytes(e, ts[0]) + EncodeTypes(e, ts[1..])
  }

  lemma {:induction false} EncodeTypesAppend(e: Endian, a: seq<T.DescriptorType>, b: seq<T.DescriptorType>)
    ensures EncodeTypes(e, a + b) == EncodeTypes(e, a) + EncodeTypes(e, b)
  {
    if a == [] {
      assert a + b == b;
    } else {
      assert (a + b)[1..] == a[1..] + b;
      EncodeTypesAppend(e, a[1..], b);
    }
  }

  /** The payload of a data record: the values' bytes, in order. */
  function EncodeData(e: Endian, ds: seq<D.DescriptorData>): seq<byte>
  {
    if ds == [] then [] else D.DataBytes(e, ds[0]) + EncodeData(e, ds[1..])
  }

  lemma {:induction false} EncodeDataAppend(e: Endian, a: seq<D.DescriptorData>, b: seq<D.DescriptorData>)
    ensures EncodeData(e, a + b) == EncodeData(e, a) + EncodeData(e, b)
  {
    if a == [] {
      assert a + b == b;
    } else {
      assert (a + b)[1..] == a[1..] + b;
      EncodeDataAppend(e, a[1..], b);
    }
  }

  predicate AllCanonical(ds: seq<D.DescriptorData>)
  {
    forall i :: 0 <= i < |ds| ==> D.Canonical(ds[i])
  }

  lemma {:induction false} EncodeDataSize(e: Endian, ds: seq<D.DescriptorData>)
    requires AllCanonical(ds)
    ensures |EncodeData(e, ds)| == DataSize(TypesOf(ds))
  {
    if ds != [] {
      assert TypesOf(ds)[1..] == TypesOf(ds[1..]);
      EncodeDataSize(e, ds[1..]);
    }
  }

  /** The bytes `record_type_to_raw` writes. */
  function TypeRecordBytes(e: Endian, dr: DescriptorRecord): seq<byte>
  {
    HeaderBytes(e, RecordHeader.DescriptorType(RecordTypeLen(dr))) + EncodeTypes(e, TypesOf(dr.descs))
  }

  /** The bytes `record_data_to_raw` writes. */
  function DataRecordBytes(e: Endian, dr: DescriptorRecord): seq<byte>
  {
    HeaderBytes(e, RecordHeader.DescriptorData(RecordDataLen(dr))) + EncodeData(e, dr.descs)
  }

  // ---------------------------------------------------------------------
  // Decoding

  /** The types a type record payload holds: `from_raw` repeated until
      the payload is used up; the first failure ends the record. */
  function DecodeTypes(e: Endian, data: seq<byte>): Result<seq<T.DescriptorType>>
    decreases |data|
  {
    if data == [] then Ok([])
    else
      var next :- T.FromRaw(e, data);
      var more :- DecodeTypes(e, next.0);
      Ok([next.1] + more)
  }

  /** One step of DecodeTypes on a non-empty payload. */
  lemma DecodeTypesStep(e: Endian, data: seq<byte>)
    requires data != [] && T.FromRaw(e, data).Ok?
    ensures DecodeTypes(e, data) == Prepend([T.FromRaw(e, data).value.1], DecodeTypes(e, T.FromRaw(e, data).value.0))
  {
  }

  /** What DecodeTypes reads is what the types encode. */
  lemma {:induction false} DecodeTypesAgree(e: Endian, data: seq<byte>)
    requires DecodeTypes(e, data).Ok?
    ensures EncodeTypesAgree(e, DecodeTypes(e, data).value, data)
    decreases |data|
  {
    if data != [] {
      var next := T.FromRaw(e, data).value;
      DecodeTypesAgree(e, next.0);
      var ts := DecodeTypes(e, data).value;
      assert ts[0] == next.1 && ts[1..] == DecodeTypes(e, next.0).value;
      assert |data| >= next.1.Len() as int >= 2;
      T.WordKindRead(e, data);
    }
  }

  /** `data` is the encoding of `ts`, except that an End type may have
      been read from any word of kind 5 (0x5XXX). */
  predicate EncodeTypesAgree(e: Endian, ts: seq<T.DescriptorType>, data: seq<byte>)
    decreases |ts|
  {
    if ts == [] then data == []
    else
      && T.Canonical(ts[0])
      && |data| >= ts[0].Len() as int
      && (if ts[0].End? then T.WordKind(e, data) == 5
          else data[..ts[0].Len()] == T.TypeBytes(e, ts[0]))
      && EncodeTypesAgree(e, ts[1..], data[ts[0].Len()..])
  }

  /** Conversely, bytes that agree with `ts` decode as exactly `ts`: the
      agreement pins the decoded codes down. */
  lemma {:induction false} AgreeDecodes(e: Endian, ts: seq<T.DescriptorType>, data: seq<byte>)
    requires EncodeTypesAgree(e, ts, data)
    ensures DecodeTypes(e, data) == Ok(ts)
    decreases |ts|
  {
    if ts != [] {
      var t, tail := ts[0], data[ts[0].Len()..];
      assert EncodeTypesAgree(e, ts[1..], tail);
      AgreeDecodes(e, ts[1..], tail);
      AgreeHead(e, t, data);
      DecodeTypesStep(e, data);
      assert [t] + ts[1..] == ts;
    }
  }

  /** One code that agrees with the front of `data` is what `from_raw`
      reads there. */
  lemma AgreeHead(e: Endian, t: T.DescriptorType, data: seq<byte>)
    requires T.Canonical(t) && |data| >= t.Len() as int
    requires if t.End? then T.WordKind(e, data) == 5 else data[..t.Len()] == T.TypeBytes(e, t)
    ensures T.FromRaw(e, data) == Ok((data[t.Len()..], t))
  {
    if t.End? {
      T.WordKindRead(e, data);
      T.EndIsLossy(e, data);
    } else {
      assert data == T.TypeBytes(e, t) + data[t.Len()..];
      T.FromRawTypeBytes(e, t, data[t.Len()..]);
    }
  }

  lemma {:induction false} AgreeSize(e: Endian, ts: seq<T.DescriptorType>, data: seq<byte>)
    requires EncodeTypesAgree(e, ts, data)
    ensures |data| == TypesSize(ts)
    decreases |ts|
  {
    if ts != [] {
      AgreeSize(e, ts[1..], data[ts[0].Len()..]);
    }
  }

  /** Every list of canonical types decodes back from its encoding. */
  lemma {:induction false} DecodeEncodeTypes(e: Endian, ts: seq<T.DescriptorType>)
    requires forall i :: 0 <= i < |ts| ==> T.Canonical(ts[i])
    ensures DecodeTypes(e, EncodeTypes(e, ts)) == Ok(ts)
  {
    if ts != [] {
      var rest := EncodeTypes(e, ts[1..]);
      T.FromRawTypeBytes(e, ts[0], rest);
      DecodeEncodeTypes(e, ts[1..]);
      assert [ts[0]] + ts[1..] == ts;
    }
  }

  /** A type record payload always has an even length: each type takes 2
      or 4 bytes. */
  lemma {:induction false} TypesSizeEven(ts: seq<T.DescriptorType>)
    ensures TypesSize(ts) % 2 == 0
  {
    if ts != [] {
      TypesSizeEven(ts[1..]);
    }
  }

  /** `Ok(acc + rest)` when `r` is `Ok(rest)`, and `r` otherwise. */
  function Prepend<X>(acc: seq<X>, r: Result<seq<X>>): Result<seq<X>>
  {
    if r.Ok? then Ok(acc + r.value) else r
  }

  lemma PrependEmpty<X>(r: Result<seq<X>>)
    ensures Prepend([], r) == r
  {
    if r.Ok? {
      assert [] + r.value == r.value;
    }
  }

  lemma PrependPrepend<X>(acc: seq<X>, x: seq<X>, r: Result<seq<X>>)
    ensures Prepend(acc, Prepend(x, r)) == Prepend(acc + x, r)
  {
    if r.Ok? {
      assert acc + (x + r.value) == acc + x + r.value;
    }
  }

  /** The `while current.len() != 0` loop of `DescriptorTypeRecord::new`. */
  method ParseTypes(e: Endian, data: seq<byte>) returns (r: Result<seq<T.DescriptorType>>)
    ensures r == DecodeTypes(e, data)
  {
    var current := data;
    var descriptors: seq<T.DescriptorType> := [];
    PrependEmpty(DecodeTypes(e, data));
    while |current| != 0
      invariant Prepend(descriptors, DecodeTypes(e, current)) == DecodeTypes(e, data)
      decreases |current|
    {
      var step := T.FromRaw(e, current);
      if step.Err? {
        return Err(step.error);
      }
      var (next, t) := step.value;
      DecodeTypesStep(e, current);
      PrependPrepend(descriptors, [t], DecodeTypes(e, next));
      descriptors := descriptors + [t];
      current := next;
    }
    assert descriptors + [] == descriptors;
    r := Ok(descriptors);
  }

  /** `DescriptorTypeRecord::new` reading a type record of length `len`
      from `rest`: an odd length is rejected before anything is read, a
      short input is an end of file, and every type must decode. */
  function TypeRecordNew(e: Endian, rest: seq<byte>, len: u16): (r: Result<(DescriptorTypeRecord, nat)>)
    ensures len % 2 != 0 ==> r == Err(OddDescriptorTypeLength)
    ensures len % 2 == 0 && |rest| < len as int ==> r == Err(UnexpectedEof)
    ensures r.Ok? ==> r.value.1 == len as int && |rest| >= len as int
    ensures r.Ok? ==> EncodeTypesAgree(e, r.value.0.types, rest[..len])
  {
    if len % 2 != 0 then Err(OddDescriptorTypeLength)
    else if |rest| < len as int then Err(UnexpectedEof)
    else
      var types :- DecodeTypes(e, rest[..len]);
      DecodeTypesAgree(e, rest[..len]);
      Ok((TypeRecord(types), len as nat))
  }

  /** An even-length payload that agrees with some codes is accepted as
      the record of exactly those codes. */
  lemma TypeRecordNewAccepts(e: Endian, ts: seq<T.DescriptorType>, rest: seq<byte>, len: u16)
    requires len % 2 == 0 && len as int <= |rest| && EncodeTypesAgree(e, ts, rest[..len])
    ensures TypeRecordNew(e, rest, len) == Ok((TypeRecord(ts), len as nat))
  {
    AgreeDecodes(e, ts, rest[..len]);
  }

  /** A payload whose first word has a kind above 5 fails the whole
      record with that word's error. */
  lemma TypeRecordNewRejects(e: Endian, rest: seq<byte>, len: u16)
    requires len % 2 == 0 && 2 <= len as int <= |rest| && ReadU16(e, rest) / T.KIND_SHIFT > 5
    ensures TypeRecordNew(e, rest, len) == Err(UnknownDescriptorKind(ReadU16(e, rest) as int))
  {
    assert rest[..len][..2] == rest[..2];
  }

  /** The values a data record payload holds under the types `ts`, and the
      bytes left after them. */
  function DecodeData(e: Endian, ts: seq<T.DescriptorType>, data: seq<byte>): (r: Result<(seq<D.DescriptorData>, seq<byte>)>)
    ensures r.Err? ==> r.error == DescriptorDataTooSmall
  {
    if ts == [] then Ok(([], data))
    else
      var next :- D.FromRaw(e, ts[0], data);
      var more :- DecodeData(e, ts[1..], next.0);
      Ok(([next.1] + more.0, more.1))
  }

  /** Decoding values succeeds exactly when the data holds the types'
      data lengths, and leaves what follows them. */
  lemma {:induction false} DecodeDataSucceeds(e: Endian, ts: seq<T.DescriptorType>, data: seq<byte>)
    ensures DecodeData(e, ts, data).Ok? <==> DataSize(ts) <= |data|
    ensures DecodeData(e, ts, data).Ok? ==> |DecodeData(e, ts, data).value.1| == |data| - DataSize(ts)
  {
    if ts != [] && |data| >= ts[0].DataLen() as int {
      DecodeDataSucceeds(e, ts[1..], D.FromRaw(e, ts[0], data).value.0);
    }
  }

  /** One step of DecodeData on a non-empty list of types. */
  lemma DecodeDataStep(e: Endian, ts: seq<T.DescriptorType>, data: seq<byte>)
    requires ts != [] && D.FromRaw(e, ts[0], data).Ok?
    ensures DecodeData(e, ts, data)
            == PrependData([D.FromRaw(e, ts[0], data).value.1], DecodeData(e, ts[1..], D.FromRaw(e, ts[0], data).value.0))
  {
  }

  /** The values DecodeData reads have the types they were read with, and
      they use up the data lengths of those types. */
  lemma {:induction false} DecodeDataTypes(e: Endian, ts: seq<T.DescriptorType>, data: seq<byte>, ds: seq<D.DescriptorData>, rest: seq<byte>)
    requires DecodeData(e, ts, data) == Ok((ds, rest))
    ensures TypesOf(ds) == ts
    ensures |data| == DataSize(ts) + |rest|
  {
    if ts != [] {
      var next := D.FromRaw(e, ts[0], data).value;
      var more := DecodeData(e, ts[1..], next.0);
      assert more.Ok? && ds == [next.1] + more.value.0 && rest == more.value.1 by {
        DecodeDataStep(e, ts, data);
      }
      assert next.1.TypeOf() == ts[0] && |next.0| == |data| - ts[0].DataLen() as int;
      DecodeDataTypes(e, ts[1..], next.0, more.value.0, rest);
      assert ds != [] && ds[0] == next.1 && ds[1..] == more.value.0;
      assert TypesOf(ds) == [next.1.TypeOf()] + TypesOf(more.value.0);
      assert [ts[0]] + ts[1..] == ts;
    }
  }

  lemma EncodeDataCons(e: Endian, d: D.DescriptorData, ds: seq<D.DescriptorData>)
    ensures EncodeData(e, [d] + ds) == D.DataBytes(e, d) + EncodeData(e, ds)
  {
    assert ([d] + ds)[0] == d && ([d] + ds)[1..] == ds;
  }

  /** The bytes DecodeData consumes are the encoding of the values it
      reads. */
  lemma {:induction false} DecodeDataBytes(e: Endian, ts: seq<T.DescriptorType>, data: seq<byte>, ds: seq<D.DescriptorData>, rest: seq<byte>)
    requires DecodeData(e, ts, data) == Ok((ds, rest))
    ensures data == EncodeData(e, ds) + rest
  {
    if ts != [] {
      var next := D.FromRaw(e, ts[0], data).value;
      var more := DecodeData(e, ts[1..], next.0);
      assert more.Ok? && ds == [next.1] + more.value.0 && rest == more.value.1 by {
        DecodeDataStep(e, ts, data);
      }
      assert data == D.DataBytes(e, next.1) + next.0 by {
        D.FromRawSplit(e, ts[0], data);
      }
      DecodeDataBytes(e, ts[1..], next.0, more.value.0, rest);
      EncodeDataCons(e, next.1, more.value.0);
      AppendAssoc(D.DataBytes(e, next.1), EncodeData(e, more.value.0), rest);
    } else {
      assert EncodeData(e, []) + data == data;
    }
  }

  /** Every list of canonical values decodes back from its encoding under
      its own types. */
  lemma {:induction false} DecodeEncodeData(e: Endian, ds: seq<D.DescriptorData>, rest: seq<byte>)
    requires AllCanonical(ds)
    ensures DecodeData(e, TypesOf(ds), EncodeData(e, ds) + rest) == Ok((ds, rest))
  {
    if ds != [] {
      var tail := EncodeData(e, ds[1..]) + rest;
      var data := EncodeData(e, ds) + rest;
      assert data == D.DataBytes(e, ds[0]) + tail by {
        assert [ds[0]] + ds[1..] == ds;
        EncodeDataCons(e, ds[0], ds[1..]);
        AppendAssoc(D.DataBytes(e, ds[0]), EncodeData(e, ds[1..]), rest);
      }
      var ts := TypesOf(ds);
      assert ts[0] == ds[0].TypeOf() && ts[1..] == TypesOf(ds[1..]);
      assert D.FromRaw(e, ts[0], data) == Ok((tail, ds[0])) by {
        D.FromRawDataBytes(e, ds[0], tail);
      }
      DecodeEncodeData(e, ds[1..], rest);
      assert DecodeData(e, ts[1..], tail) == Ok((ds[1..], rest));
      DecodeDataStep(e, ts, data);
      assert DecodeData(e, ts, data) == PrependData([ds[0]], Ok((ds[1..], rest)));
      assert [ds[0]] + ds[1..] == ds;
    } else {
      assert EncodeData(e, ds) + rest == rest;
    }
  }

  /** The leftover check of `DescriptorRecord::new` never fires: once the
      u16 sum of the data lengths equals the payload length, decoding
      every value uses the payload up exactly. */
  lemma NoLeftover(e: Endian, ts: seq<T.DescriptorType>, data: seq<byte>)
    requires |data| < 0x1_0000 && DataSize(ts) % 0x1_0000 == |data|
    requires DecodeData(e, ts, data).Ok?
    ensures DecodeData(e, ts, data).value.1 == []
  {
    var r := DecodeData(e, ts, data).value;
    DecodeDataTypes(e, ts, data, r.0, r.1);
    assert DataSize(ts) <= |data|;
    assert DataSize(ts) % 0x1_0000 == DataSize(ts);
  }

  /** `Ok((acc + ds, rest))` when `r` is `Ok((ds, rest))`, and `r` otherwise. */
  function PrependData(acc: seq<D.DescriptorData>, r: Result<(seq<D.DescriptorData>, seq<byte>)>): Result<(seq<D.DescriptorData>, seq<byte>)>
  {
    if r.Ok? then Ok((acc + r.value.0, r.value.1)) else r
  }

  lemma PrependDataPrepend(acc: seq<D.DescriptorData>, x: seq<D.DescriptorData>, r: Result<(seq<D.DescriptorData>, seq<byte>)>)
    ensures PrependData(acc, PrependData(x, r)) == PrependData(acc + x, r)
  {
    if r.Ok? {
      assert acc + (x + r.value.0) == acc + x + r.value.0;
    }
  }

  /** One turn of the loop in `ParseData`: reading the value at `ts[i]`
      either ends the whole decoding with its error, or moves the
      remaining decoding one type on. */
  lemma ParseDataTurn(e: Endian, ts: seq<T.DescriptorType>, data: seq<byte>, i: nat,
                      descriptors: seq<D.DescriptorData>, current: seq<byte>)
    requires i < |ts|
    requires PrependData(descriptors, DecodeData(e, ts[i..], current)) == DecodeData(e, ts, data)
    ensures D.FromRaw(e, ts[i], current).Err? ==> DecodeData(e, ts, data) == Err(D.FromRaw(e, ts[i], current).error)
    ensures D.FromRaw(e, ts[i], current).Ok? ==>
              PrependData(descriptors + [D.FromRaw(e, ts[i], current).value.1],
                          DecodeData(e, ts[i + 1..], D.FromRaw(e, ts[i], current).value.0))
              == DecodeData(e, ts, data)
  {
    var step := D.FromRaw(e, ts[i], current);
    assert ts[i..][0] == ts[i] && ts[i..][1..] == ts[i + 1..];
    if step.Ok? {
      DecodeDataStep(e, ts[i..], current);
      PrependDataPrepend(descriptors, [step.value.1], DecodeData(e, ts[i + 1..], step.value.0));
    }
  }

  /** The `map`/`collect` over the types in `DescriptorRecord::new`: each
      type reads its value from the current position, and the first
      failure ends the record. */
  method ParseData(e: Endian, ts: seq<T.DescriptorType>, data: seq<byte>) returns (r: Result<(seq<D.DescriptorData>, seq<byte>)>)
    ensures r == DecodeData(e, ts, data)
  {
    var current := data;
    var descriptors: seq<D.DescriptorData> := [];
    assert PrependData([], DecodeData(e, ts, data)) == DecodeData(e, ts, data) by {
      var r := DecodeData(e, ts, data);
      if r.Ok? {
        assert [] + r.value.0 == r.value.0;
      }
    }
    var i := 0;
    assert ts[0..] == ts;
    while i < |ts|
      invariant i <= |ts|
      invariant PrependData(descriptors, DecodeData(e, ts[i..], current)) == DecodeData(e, ts, data)
    {
      var step := D.FromRaw(e, ts[i], current);
      ParseDataTurn(e, ts, data, i, descriptors, current);
      if step.Err? {
        return Err(step.error);
      }
      descriptors := descriptors + [step.value.1];
      current := step.value.0;
      i := i + 1;
    }
    assert descriptors + [] == descriptors;
    r := Ok((descriptors, current));
  }

  /** `DescriptorRecord::new` reading a data record of length `len` from
      `rest` with the types of `tr`: the length must be the type record's
      data length, a short input is an end of file, and every value must
      decode. The values read have the recorded types, in order. */
  function DataRecordNew(e: Endian, tr: DescriptorTypeRecord, rest: seq<byte>, len: u16): (r: Result<(DescriptorRecord, nat)>)
    ensures DataLen(tr) != len ==> r == Err(UnexpectedDescriptorDataLength)
    ensures DataLen(tr) == len && |rest| < len as int ==> r == Err(UnexpectedEof)
    ensures r.Ok? ==> r.value.1 == len as int && |rest| >= len as int
    ensures r.Ok? ==> TypesOf(r.value.0.descs) == tr.types
    ensures r.Ok? ==> EncodeData(e, r.value.0.descs) == rest[..len]
  {
    if DataLen(tr) != len then Err(UnexpectedDescriptorDataLength)
    else if |rest| < len as int then Err(UnexpectedEof)
    else
      var decoded :- DecodeData(e, tr.types, rest[..len]);
      DecodeDataTypes(e, tr.types, rest[..len], decoded.0, decoded.1);
      DecodeDataBytes(e, tr.types, rest[..len], decoded.0, decoded.1);
      NoLeftover(e, tr.types, rest[..len]);
      assert EncodeData(e, decoded.0) + [] == EncodeData(e, decoded.0);
      Ok((DataRecord(decoded.0), len as nat))
  }

  /** A data record is accepted exactly when its length is the one the
      type record announces, the input holds it, and the types' data
      lengths add up to it without wrapping. */
  lemma DataRecordNewAccepts(e: Endian, tr: DescriptorTypeRecord, rest: seq<byte>, len: u16)
    ensures DataRecordNew(e, tr, rest, len).Ok?
            <==> DataLen(tr) == len && len as int <= |rest| && DataSize(tr.types) == len as int
  {
    if DataLen(tr) == len && len as int <= |rest| {
      assert |rest[..len]| == len as int;
      DecodeDataSucceeds(e, tr.types, rest[..len]);
      if DataSize(tr.types) <= len as int {
        assert DataSize(tr.types) < 0x1_0000;
      }
    }
  }

  /** Canonical values have canonical types. */
  lemma CanonicalTypesOf(ds: seq<D.DescriptorData>)
    requires AllCanonical(ds)
    ensures forall i :: 0 <= i < |TypesOf(ds)| ==> T.Canonical(TypesOf(ds)[i])
  {
    forall i | 0 <= i < |ds| ensures T.Canonical(TypesOf(ds)[i]) {
      TypesOfIndex(ds, i);
      assert D.Canonical(ds[i]);
    }
  }

  /** A type record payload of canonical types decodes back to them. */
  lemma TypeRecordRoundTrip(e: Endian, ts: seq<T.DescriptorType>, rest: seq<byte>)
    requires forall i :: 0 <= i < |ts| ==> T.Canonical(ts[i])
    requires TypesSize(ts) < 0x1_0000
    ensures TypeRecordNew(e, EncodeTypes(e, ts) + rest, TypesSize(ts) as u16) == Ok((TypeRecord(ts), TypesSize(ts)))
  {
    TypesSizeEven(ts);
    var tb := EncodeTypes(e, ts);
    assert (tb + rest)[..TypesSize(ts)] == tb;
    DecodeEncodeTypes(e, ts);
  }

  /** A data record payload of canonical values decodes back to them under
      their own types. */
  lemma DataRecordRoundTrip(e: Endian, ds: seq<D.DescriptorData>, rest: seq<byte>)
    requires AllCanonical(ds)
    requires DataSize(TypesOf(ds)) < 0x1_0000
    ensures DataRecordNew(e, TypeRecord(TypesOf(ds)), EncodeData(e, ds) + rest, DataSize(TypesOf(ds)) as u16)
            == Ok((DataRecord(ds), DataSize(TypesOf(ds))))
  {
    var db := EncodeData(e, ds);
    EncodeDataSize(e, ds);
    assert (db + rest)[..|db|] == db + [];
    DecodeEncodeData(e, ds, []);
  }

  /** The descriptor written by the composer is read back: its type record
      decodes to its types and its data record to its values. */
  lemma RecordsRoundTrip(e: Endian, dr: DescriptorRecord, rest: seq<byte>)
    requires AllCanonical(dr.descs)
    requires TypesSize(TypesOf(dr.descs)) < 0x1_0000 && DataSize(TypesOf(dr.descs)) < 0x1_0000
    ensures TypeRecordNew(e, EncodeTypes(e, TypesOf(dr.descs)) + rest, RecordTypeLen(dr))
            == Ok((TypeRecord(TypesOf(dr.descs)), TypesSize(TypesOf(dr.descs))))
    ensures DataRecordNew(e, TypeRecord(TypesOf(dr.descs)), EncodeData(e, dr.descs) + rest, RecordDataLen(dr))
            == Ok((dr, DataSize(TypesOf(dr.descs))))
  {
    var ts := TypesOf(dr.descs);
    CanonicalTypesOf(dr.descs);
    assert RecordTypeLen(dr) == TypesSize(ts) as u16;
    assert RecordDataLen(dr) == DataSize(ts) as u16;
    TypeRecordRoundTrip(e, ts, rest);
    DataRecordRoundTrip(e, dr.descs, rest);
  }

  // ---------------------------------------------------------------------
  // Writing

  /** Extending a prefix of the types by one. */
  lemma TypesPrefixStep(e: Endian, ts: seq<T.DescriptorType>, i: nat)
    requires i < |ts|
    ensures TypesSize(ts[..i + 1]) == TypesSize(ts[..i]) + ts[i].Len() as int
    ensures EncodeTypes(e, ts[..i + 1]) == EncodeTypes(e, ts[..i]) + T.TypeBytes(e, ts[i])
  {
    assert ts[..i + 1] == ts[..i] + [ts[i]];
    assert [ts[i]][1..] == [];
    TypesSizeAppend(ts[..i], [ts[i]]);
    EncodeTypesAppend(e, ts[..i], [ts[i]]);
  }

  lemma TypesPrefixSize(ts: seq<T.DescriptorType>, i: nat)
    requires i <= |ts|
    ensures TypesSize(ts[..i]) <= TypesSize(ts)
  {
    assert ts[..i] + ts[i..] == ts;
    TypesSizeAppend(ts[..i], ts[i..]);
  }

  /** The loop of `record_type_to_raw`: writes each value's type from
      `off` on, and fails as soon as one does not fit. */
  method TypesToRaw(e: Endian, ds: seq<D.DescriptorData>, buf: array<byte>, off: nat) returns (r: Result<nat>)
    requires off <= buf.Length
    modifies buf
    ensures r.Err? <==> buf.Length - off < TypesSize(TypesOf(ds))
    ensures r.Err? ==> r.error == DescriptorTypeBufferTooSmall
    ensures r.Ok? ==> r.value == off + TypesSize(TypesOf(ds))
    ensures r.Ok? ==> Written(old(buf[..]), buf[..], off, EncodeTypes(e, TypesOf(ds)))
  {
    ghost var ts := TypesOf(ds);
    var cur := off;
    WrittenNothing(buf[..], off);
    var i := 0;
    while i < |ds|
      invariant i <= |ds|
      invariant cur == off + TypesSize(ts[..i]) <= buf.Length
      invariant Written(old(buf[..]), buf[..], off, EncodeTypes(e, ts[..i]))
    {
      var t := ds[i].TypeOf();
      TypesOfIndex(ds, i);
      TypesPrefixStep(e, ts, i);
      ghost var before := buf[..];
      var next := T.ToRaw(e, t, buf, cur);
      if next.Err? {
        TypesPrefixSize(ts, i + 1);
        return Err(next.error);
      }
      WrittenThen(old(buf[..]), before, buf[..], off, EncodeTypes(e, ts[..i]), T.TypeBytes(e, t));
      cur := next.value;
      i := i + 1;
    }
    assert ts[..i] == ts;
    r := Ok(cur);
  }

  /** `DescriptorRecord::record_type_to_raw` on `buf[off..]`: the header,
      then each value's type; fails (leaving what was already written)
      as soon as the header or a type does not fit. */
  method RecordTypeToRaw(e: Endian, dr: DescriptorRecord, buf: array<byte>, off: nat) returns (r: Result<nat>)
    requires off <= buf.Length
    modifies buf
    ensures r.Err? <==> buf.Length - off < RECORD_HEADER_LEN + TypesSize(TypesOf(dr.descs))
    ensures r.Ok? ==> r.value == off + RECORD_HEADER_LEN + TypesSize(TypesOf(dr.descs))
    ensures r.Ok? ==> Written(old(buf[..]), buf[..], off, TypeRecordBytes(e, dr))
  {
    var h := RecordHeader.DescriptorType(RecordTypeLen(dr));
    var next :- ToRaw(e, h, buf, off);
    ghost var mid := buf[..];
    r := TypesToRaw(e, dr.descs, buf, next);
    if r.Ok? {
      WrittenThen(old(buf[..]), mid, buf[..], off, HeaderBytes(e, h), EncodeTypes(e, TypesOf(dr.descs)));
    }
  }

  /** The precondition of `record_data_to_raw`'s `unwrap`s: with `room`
      bytes left, each value fits, and an Other value, which
      `copy_from_slice` copies over the whole remaining slice, is exactly
      as long as the room left for it. */
  predicate OtherFits(ds: seq<D.DescriptorData>, room: nat)
  {
    if ds == [] then true
    else
      && room >= ds[0].Len() as int
      && (ds[0].Other? ==> room == |ds[0].bytes| < 0x1_0000)
      && OtherFits(ds[1..], room - ds[0].Len() as int)
  }

  /** What `OtherFits` promises of the next value to write. */
  lemma OtherFitsCons(e: Endian, ds: seq<D.DescriptorData>, room: nat)
    requires ds != [] && OtherFits(ds, room)
    ensures room >= |D.DataBytes(e, ds[0])| == ds[0].Len() as int
    ensures ds[0].Other? ==> room == |ds[0].bytes|
    ensures OtherFits(ds[1..], room - ds[0].Len() as int)
  {
  }

  /** Values that fit take the room their types announce. */
  lemma {:induction false} OtherFitsSize(e: Endian, ds: seq<D.DescriptorData>, room: nat)
    requires OtherFits(ds, room)
    ensures |EncodeData(e, ds)| == DataSize(TypesOf(ds)) <= room
  {
    if ds != [] {
      OtherFitsSize(e, ds[1..], room - ds[0].Len() as int);
      var ts := TypesOf(ds);
      assert ts[0] == ds[0].TypeOf() && ts[1..] == TypesOf(ds[1..]);
    }
  }

  /** What the loop of `record_data_to_raw` keeps: `written` is on
      `after` at `off`, and the values `rest` still to write complete it
      to the encoding of `ds` and fit in what is left from `cur`. */
  ghost predicate DataProgress(e: Endian, ds: seq<D.DescriptorData>, before: seq<byte>, after: seq<byte>,
                               off: nat, cur: nat, rest: seq<D.DescriptorData>, written: seq<byte>)
  {
    && written + EncodeData(e, rest) == EncodeData(e, ds)
    && cur == off + |written| <= |after|
    && Written(before, after, off, written)
    && OtherFits(rest, |after| - cur)
  }

  /** One turn of the loop of `record_data_to_raw`: writes the next value
      at `cur`. */
  method DataToRawNext(e: Endian, ghost ds: seq<D.DescriptorData>, ghost before: seq<byte>, buf: array<byte>, ghost off: nat,
                       cur: nat, rest: seq<D.DescriptorData>, ghost written: seq<byte>)
    returns (cur': nat, ghost written': seq<byte>)
    requires rest != [] && DataProgress(e, ds, before, buf[..], off, cur, rest, written)
    modifies buf
    ensures DataProgress(e, ds, before, buf[..], off, cur', rest[1..], written')
  {
    var d := rest[0];
    OtherFitsCons(e, rest, buf.Length - cur);
    ghost var bytes := D.DataBytes(e, d);
    AppendAssoc(written, bytes, EncodeData(e, rest[1..]));
    ghost var mid := buf[..];
    var next := D.ToRaw(e, d, buf, cur);
    WrittenThen(before, mid, buf[..], off, written, bytes);
    written' := written + bytes;
    cur' := next.value;
  }

  /** The loop of `record_data_to_raw`: writes each value from `off`
      on; with room as `OtherFits` states, none of them fails. */
  method DataToRaw(e: Endian, ds: seq<D.DescriptorData>, buf: array<byte>, off: nat) returns (end: nat)
    requires off <= buf.Length
    requires OtherFits(ds, buf.Length - off)
    modifies buf
    ensures end == off + |EncodeData(e, ds)|
    ensures Written(old(buf[..]), buf[..], off, EncodeData(e, ds))
  {
    var cur := off;
    var rest := ds;
    ghost var written: seq<byte> := [];
    WrittenNothing(buf[..], off);
    while rest != []
      invariant DataProgress(e, ds, old(buf[..]), buf[..], off, cur, rest, written)
      decreases |rest|
    {
      cur, written := DataToRawNext(e, ds, old(buf[..]), buf, off, cur, rest, written);
      rest := rest[1..];
    }
    assert written + [] == written;
    end := cur;
  }

  /** `DescriptorRecord::record_data_to_raw` on `buf[off..]`: the header
      (failing when fewer than 4 bytes are available), then each value.
      The values are written with `unwrap`, so callers must give room for
      them as `OtherFits` states. */
  method RecordDataToRaw(e: Endian, dr: DescriptorRecord, buf: array<byte>, off: nat) returns (r: Result<nat>)
    requires off <= buf.Length
    requires buf.Length - off >= RECORD_HEADER_LEN ==> OtherFits(dr.descs, buf.Length - off - RECORD_HEADER_LEN)
    modifies buf
    ensures r.Err? <==> buf.Length - off < RECORD_HEADER_LEN
    ensures r.Err? ==> buf[..] == old(buf[..])
    ensures r.Ok? ==> r.value == off + RECORD_HEADER_LEN + DataSize(TypesOf(dr.descs))
    ensures r.Ok? ==> Written(old(buf[..]), buf[..], off, DataRecordBytes(e, dr))
  {
    var h := RecordHeader.DescriptorData(RecordDataLen(dr));
    var next :- ToRaw(e, h, buf, off);
    ghost var mid := buf[..];
    OtherFitsSize(e, dr.descs, buf.Length - next);
    var end := DataToRaw(e, dr.descs, buf, next);
    WrittenThen(old(buf[..]), mid, buf[..], off, HeaderBytes(e, h), EncodeData(e, dr.descs));
    r := Ok(end);
  }
}
