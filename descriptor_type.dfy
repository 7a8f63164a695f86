/** A descriptor type: a 16-bit word 0xKIII whose top nibble K is the
    kind (the size of the value it announces) and whose low 12 bits are
    the descriptor id. Kind 4 ("Other") is followed by a 16-bit length. */
module DescType {
  import opened Bytes
  import opened Wrappers

  const KIND_SHIFT: nat := 0x1000
  const ID_MASK_LIMIT: nat := 0x1000
  /** The id `id()` reports for End; 0x5003 is the only End word seen. */
  const END_ID: u16 := 3

  datatype DescriptorType =
    | U8(id: u16)
    | U16(id: u16)
    | U32(id: u16)
    | U64(id: u16)
    | Other(id: u16, length: u16)
    | End
  {
    function Kind(): (k: byte)
      ensures k <= 5
    {
      match this
      case U8(_) => 0
      case U16(_) => 1
      case U32(_) => 2
      case U64(_) => 3
      case Other(_, _) => 4
      case End => 5
    }

    /** `id`: the descriptor id; End reports 3. A canonical type's id
        fits the low 12 bits. */
    function Id(): (r: u16)
      ensures End? ==> r == END_ID
      ensures Canonical(this) ==> r as int < ID_MASK_LIMIT
    {
      if End? then END_ID else id
    }

    /** `value`: `(kind << 12) | id`, the word written for this type. With
        an id of 12 bits the kind and the id do not overlap, so the OR is
        a sum. */
    function Value(): (r: u16)
      ensures Canonical(this) ==> r as int == Kind() as int * KIND_SHIFT + Id() as int
    {
      var r := Or16(Kind() as int * KIND_SHIFT, Id());
      assert Canonical(this) ==> r as int == Kind() as int * KIND_SHIFT + Id() as int by {
        if Canonical(this) {
          Pow2Values();
          BitOrDisjoint(Kind() as int, Id() as int, 12);
        }
      }
      r
    }

    /** `len`: the bytes this type occupies in a descriptor type record. */
    function Len(): (n: u16)
      ensures n == 2 || n == 4
    {
      if Other? then 4 else 2
    }

    /** `data_len`: the bytes of the value it announces: 2^kind for the
        fixed-size kinds, the carried length for Other, none for End. */
    function DataLen(): (n: u16)
      ensures Kind() <= 3 ==> n as int == Pow2(Kind() as nat)
      ensures Other? ==> n == length
      ensures End? ==> n == 0
    {
      match this
      case U8(_) => 1
      case U16(_) => 2
      case U32(_) => 4
      case U64(_) => 8
      case Other(_, length) => length
      case End => 0
    }
  }

  /** The types `from_raw` can produce: an id that fits 12 bits. */
  predicate Canonical(t: DescriptorType)
  {
    t.End? || t.id < ID_MASK_LIMIT
  }

  /** The kind and the id of a canonical type are read back from its word. */
  lemma SplitValue(t: DescriptorType)
    requires Canonical(t)
    ensures t.Value() as int / KIND_SHIFT == t.Kind() as int
    ensures t.Value() as int % ID_MASK_LIMIT == t.Id() as int
  {
    DivModUnique(t.Value() as int, KIND_SHIFT, t.Kind() as int, t.Id() as int);
  }

  /** The bytes `to_raw` writes. */
  function TypeBytes(e: Endian, t: DescriptorType): (r: seq<byte>)
    ensures |r| == t.Len() as int
  {
    WriteU16(e, t.Value()) + if t.Other? then WriteU16(e, t.length) else []
  }

  /** `DescriptorType::from_raw`: splits the word into kind (`value >> 12`)
      and id (`value & 0x0fff`), reads the length of an Other type, and
      returns the bytes after the type. Kinds 6 to 15 are rejected. */
  function FromRaw(e: Endian, data: seq<byte>): (r: Result<(seq<byte>, DescriptorType)>)
    ensures |data| < 2 ==> r == Err(DescriptorTypeTooSmall)
    ensures |data| >= 2 && ReadU16(e, data) / KIND_SHIFT > 5 ==>
              r == Err(UnknownDescriptorKind(ReadU16(e, data)))
    ensures |data| >= 2 && ReadU16(e, data) / KIND_SHIFT == 4 && |data| < 4 ==> r == Err(OtherMissingLength)
    ensures r.Err? <==> |data| < 2 || ReadU16(e, data) / KIND_SHIFT > 5
                        || (ReadU16(e, data) / KIND_SHIFT == 4 && |data| < 4)
    ensures r.Ok? ==>
              var t := r.value.1;
              && |data| >= t.Len() as int
              && r.value.0 == data[t.Len()..]
              && Canonical(t)
              && t.Kind() as int == ReadU16(e, data) / KIND_SHIFT
              && (!t.End? ==> t.id as int == ReadU16(e, data) % ID_MASK_LIMIT)
              && (!t.End? ==> TypeBytes(e, t) == data[..t.Len()])
  {
    if |data| < 2 then Err(DescriptorTypeTooSmall)
    else
      var value := ReadU16(e, data);
      var kind := value / KIND_SHIFT;
      var id := value % ID_MASK_LIMIT;
      var t :=
        if kind == 0 then U8(id)
        else if kind == 1 then U16(id)
        else if kind == 2 then U32(id)
        else if kind == 3 then U64(id)
        else if kind == 4 then Other(id, if |data| >= 4 then ReadU16(e, data[2..]) else 0)
        else End;
      if kind > 5 then Err(UnknownDescriptorKind(value))
      else if kind == 4 && |data| < 4 then Err(OtherMissingLength)
      else
        assert !t.End? ==> TypeBytes(e, t) == data[..t.Len()] by {
          if !t.End? {
            assert t.Value() == value;
            WriteReadUint(e, data[..2]);
            if t.Other? {
              WriteReadUint(e, data[2..4]);
              assert data[2..][..2] == data[2..4];
              assert data[..2] + data[2..4] == data[..4];
            }
          }
        }
        Ok((data[t.Len()..], t))
  }

  /** The kind of the word at the front of `data`: the high four bits of
      its most significant byte. */
  function WordKind(e: Endian, data: seq<byte>): (k: nat)
    requires |data| >= 2
    ensures k < 16
  {
    (if e.LE? then data[1] else data[0]) as nat / 16
  }

  /** WordKind is the kind `from_raw` takes from the word, `value >> 12`. */
  lemma WordKindRead(e: Endian, data: seq<byte>)
    requires |data| >= 2
    ensures WordKind(e, data) == ReadU16(e, data) / KIND_SHIFT
  {
    var hi: nat := if e.LE? then data[1] else data[0];
    var lo: nat := if e.LE? then data[0] else data[1];
    var w := data[..2];
    assert [lo, hi][1..] == [hi] && [hi][1..] == [];
    assert LeValue([lo, hi]) == lo + 256 * hi;
    if e.BE? {
      assert w[1..] == [data[1]] && [data[1]][1..] == [];
      assert Reverse(w) == [lo, hi];
    } else {
      assert w == [lo, hi];
    }
    assert ReadU16(e, data) == lo + 256 * hi;
    DivModUnique(lo + 256 * hi, KIND_SHIFT, hi / 16, (hi % 16) * 256 + lo);
  }

  /** Every canonical type decodes back from its own bytes. */
  lemma FromRawTypeBytes(e: Endian, t: DescriptorType, rest: seq<byte>)
    requires Canonical(t)
    ensures FromRaw(e, TypeBytes(e, t) + rest) == Ok((rest, t))
  {
    var data := TypeBytes(e, t) + rest;
    SplitValue(t);
    if t.Other? {
      assert data == WriteU16(e, t.Value()) + (WriteU16(e, t.length) + rest);
      ReadWriteU16(e, t.Value(), WriteU16(e, t.length) + rest);
      assert data[2..] == WriteU16(e, t.length) + rest;
      ReadWriteU16(e, t.length, rest);
    } else {
      assert data == WriteU16(e, t.Value()) + rest;
      ReadWriteU16(e, t.Value(), rest);
    }
    assert data[t.Len()..] == rest;
  }

  /** End forgets its id: every word 0x5XXX decodes to End, so only
      0x5003 is written back as it was read. */
  lemma EndIsLossy(e: Endian, data: seq<byte>)
    requires |data| >= 2 && ReadU16(e, data) / KIND_SHIFT == 5
    ensures FromRaw(e, data) == Ok((data[2..], End))
    ensures TypeBytes(e, End) == data[..2] <==> ReadU16(e, data) == 0x5003
  {
    var value := ReadU16(e, data);
    if TypeBytes(e, End) == data[..2] {
      ReadWriteU16(e, 0x5003, []);
      assert WriteU16(e, 0x5003) + [] == data[..2];
      assert data[..2][..2] == data[..2];
      assert ReadU16(e, data[..2]) == value;
    }
    if value == 0x5003 {
      WriteReadUint(e, data[..2]);
    }
  }

  /** `DescriptorType::to_raw` on `buf[off..]`: fails when fewer than
      `len` bytes are available, otherwise writes the word (and an Other
      type's length) and returns the offset after them. */
  method ToRaw(e: Endian, t: DescriptorType, buf: array<byte>, off: nat) returns (r: Result<nat>)
    requires off <= buf.Length
    modifies buf
    ensures r.Err? <==> buf.Length - off < t.Len() as int
    ensures r.Err? ==> r.error == DescriptorTypeBufferTooSmall && buf[..] == old(buf[..])
    ensures r.Ok? ==> r.value == off + t.Len() as int
    ensures r.Ok? ==> Written(old(buf[..]), buf[..], off, TypeBytes(e, t))
  {
    if buf.Length - off < t.Len() as int {
      return Err(DescriptorTypeBufferTooSmall);
    }
    WriteAt(buf, off, WriteU16(e, t.Value()));
    ghost var mid := buf[..];
    match t {
      case Other(_, length) =>
        WriteAt(buf, off + 2, WriteU16(e, length));
        WrittenThen(old(buf[..]), mid, buf[..], off, WriteU16(e, t.Value()), WriteU16(e, length));
      case _ =>
        assert WriteU16(e, t.Value()) + [] == TypeBytes(e, t);
    }
    r := Ok(off + t.Len() as int);
  }
}
