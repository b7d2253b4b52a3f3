/** The `inspectableTypes` registry: an ordered table of labels, minimum byte
    counts and conversions from the buffer to the text the inspector shows.
    Every conversion reads from byte 0 of the buffer. */
module Inspector {
  import opened Bytes
  import opened Render
  import ThreeByte
  import Varints

  /** One entry of the table, by what it decodes. */
  datatype InspectableType =
    | Uint8 | Int8
    | Uint16 | Int16
    | Uint24 | Int24
    | Uint32 | Int32
    | Int64 | Uint64
    | Float32 | Float64
    | Varint | Uvarint
    | Utf8 | Utf16

  /** The table in presentation order. */
  const INSPECTABLE_TYPES: seq<InspectableType> := [
    Uint8, Int8, Uint16, Int16, Uint24, Int24, Uint32, Int32,
    Int64, Uint64, Float32, Float64, Varint, Uvarint, Utf8, Utf16
  ]

  function Label(t: InspectableType): string
  {
    match t
    case Uint8 => "uint8"
    case Int8 => "int8"
    case Uint16 => "uint16"
    case Int16 => "int16"
    case Uint24 => "uint24"
    case Int24 => "int24"
    case Uint32 => "uint32"
    case Int32 => "int32"
    case Int64 => "int64"
    case Uint64 => "uint64"
    case Float32 => "float32"
    case Float64 => "float64"
    case Varint => "varint"
    case Uvarint => "uvarint"
    case Utf8 => "UTF-8"
    case Utf16 => "UTF-16"
  }

  /** The `minBytes` column: the bytes a caller must supply before converting. */
  function MinBytes(t: InspectableType): (n: nat)
    ensures 1 <= n <= 8
  {
    match t
    case Uint8 | Int8 | Varint | Uvarint | Utf8 => 1
    case Uint16 | Int16 | Utf16 => 2
    case Uint24 | Int24 => 3
    case Uint32 | Int32 | Float32 => 4
    case Int64 | Uint64 | Float64 => 8
  }

  /** The fixed-width integer entries. */
  predicate IsFixedInteger(t: InspectableType)
  {
    !(t.Float32? || t.Float64? || t.Varint? || t.Uvarint? || t.Utf8? || t.Utf16?)
  }

  predicate IsSigned(t: InspectableType)
  {
    t.Int8? || t.Int16? || t.Int24? || t.Int32? || t.Int64?
  }

  /** The entries whose conversion is part of this model: all but the floating-point and text ones. */
  predicate IsModelled(t: InspectableType)
  {
    IsFixedInteger(t) || t.Varint? || t.Uvarint?
  }

  /** The entries that read through a DataView getter, which throws RangeError
      when the value does not fit in the view. */
  predicate ReadsThroughDataView(t: InspectableType)
  {
    IsFixedInteger(t) && !t.Uint24? && !t.Int24?
  }

  /** What a conversion yields: the text shown, or the RangeError a DataView getter throws. */
  datatype Outcome = Shown(text: string) | RangeError

  /** `dv.getUintN(0, le)` or `dv.getIntN(0, le)` followed by `toString()`. */
  function ViewRead(w: seq<Byte>, n: nat, signed: bool, le: bool): Outcome
    requires n >= 1
  {
    if |w| < n then RangeError
    else Shown(Decimal(if signed then Signed(w, n, le) else Unsigned(w, n, le)))
  }

  /** `convert(dv, littleEndian)` of each modelled entry. */
  function Convert(t: InspectableType, w: seq<Byte>, le: bool): Outcome
    requires IsModelled(t)
  {
    match t
    case Uint8 => if |w| < 1 then RangeError else Shown(Decimal(w[0]))
    case Int8 => if |w| < 1 then RangeError else Shown(Decimal(FromTwosComplement(w[0], 8)))
    case Uint16 => ViewRead(w, 2, false, le)
    case Int16 => ViewRead(w, 2, true, le)
    case Uint24 => Shown(Decimal(ThreeByte.GetUint24(w, le)))
    case Int24 => Shown(Decimal(ThreeByte.Int24(w, le)))
    case Uint32 => ViewRead(w, 4, false, le)
    case Int32 => ViewRead(w, 4, true, le)
    case Int64 => ViewRead(w, 8, true, le)
    case Uint64 => ViewRead(w, 8, false, le)
    case Varint => Shown(Varints.Text(Varints.VarintSpec(w)))
    case Uvarint => Shown(Varints.Text(Varints.UVarint(w)))
  }

  /** The standard endian (two's-complement, for the signed entries) value of
      the first MinBytes(t) bytes. */
  function StandardValue(t: InspectableType, w: seq<Byte>, le: bool): int
    requires IsFixedInteger(t) && |w| >= MinBytes(t)
  {
    if IsSigned(t) then Signed(w, MinBytes(t), le) else Unsigned(w, MinBytes(t), le)
  }

  /** Every fixed-width integer entry shows the standard value of its first MinBytes(t) bytes. */
  lemma FixedIntegersAreStandard(t: InspectableType, w: seq<Byte>, le: bool)
    requires IsFixedInteger(t) && |w| >= MinBytes(t)
    ensures Convert(t, w, le) == Shown(Decimal(StandardValue(t, w, le)))
  {
    if t.Uint8? || t.Int8? {
      OneByte(w, le);
    } else if t.Uint24? {
      ThreeByte.Uint24IsStandard(w, le);
    } else if t.Int24? {
      ThreeByte.Int24IsStandard(w, le);
    } else {
      ViewEntries(t, w, le);
    }
  }

  /** The 16-, 32- and 64-bit entries are DataView reads of MinBytes(t) bytes. */
  lemma ViewEntries(t: InspectableType, w: seq<Byte>, le: bool)
    requires ReadsThroughDataView(t) && !t.Uint8? && !t.Int8?
    ensures Convert(t, w, le) == ViewRead(w, MinBytes(t), IsSigned(t), le)
  {
  }

  lemma OneByte(w: seq<Byte>, le: bool)
    requires |w| >= 1
    ensures Unsigned(w, 1, le) == w[0]
  {
    assert w[..1][1..] == [] && w[..1][..0] == [];
  }

  /** The 8-bit entries do not depend on the byte order. */
  lemma EightBitIgnoresEndianness(t: InspectableType, w: seq<Byte>)
    requires t.Uint8? || t.Int8?
    ensures Convert(t, w, true) == Convert(t, w, false)
  {
  }

  /** MinBytes(t) bytes are always enough: no modelled entry throws on them. */
  lemma MinBytesSuffice(t: InspectableType, w: seq<Byte>, le: bool)
    requires IsModelled(t) && |w| >= MinBytes(t)
    ensures Convert(t, w, le).Shown?
  {
  }

  /** For the DataView entries MinBytes(t) is also the least that works: one byte
      fewer throws RangeError. The 24-bit and varint entries never throw. */
  lemma MinBytesNecessary(t: InspectableType, w: seq<Byte>, le: bool)
    requires IsModelled(t)
    ensures ReadsThroughDataView(t) ==> (Convert(t, w, le) == RangeError <==> |w| < MinBytes(t))
    ensures !ReadsThroughDataView(t) ==> Convert(t, w, le).Shown?
  {
  }

  /** Where t sits in the table. */
  function IndexOf(t: InspectableType): (i: nat)
    ensures i < |INSPECTABLE_TYPES| && INSPECTABLE_TYPES[i] == t
  {
    match t
    case Uint8 => 0
    case Int8 => 1
    case Uint16 => 2
    case Int16 => 3
    case Uint24 => 4
    case Int24 => 5
    case Uint32 => 6
    case Int32 => 7
    case Int64 => 8
    case Uint64 => 9
    case Float32 => 10
    case Float64 => 11
    case Varint => 12
    case Uvarint => 13
    case Utf8 => 14
    case Utf16 => 15
  }

  /** The table lists every type exactly once. */
  lemma TableListsEachTypeOnce()
    ensures forall t :: t in INSPECTABLE_TYPES
    ensures forall i :: 0 <= i < |INSPECTABLE_TYPES| ==> IndexOf(INSPECTABLE_TYPES[i]) == i
  {
    forall t
      ensures t in INSPECTABLE_TYPES
    {
      var i := IndexOf(t);
    }
  }

  /** The entry a label names, if any. */
  function FromLabel(s: string): (r: Option<InspectableType>)
    ensures r.Some? ==> Label(r.value) == s
  {
    if s == "uint8" then Some(Uint8)
    else if s == "int8" then Some(Int8)
    else if s == "uint16" then Some(Uint16)
    else if s == "int16" then Some(Int16)
    else if s == "uint24" then Some(Uint24)
    else if s == "int24" then Some(Int24)
    else if s == "uint32" then Some(Uint32)
    else if s == "int32" then Some(Int32)
    else if s == "int64" then Some(Int64)
    else if s == "uint64" then Some(Uint64)
    else if s == "float32" then Some(Float32)
    else if s == "float64" then Some(Float64)
    else if s == "varint" then Some(Varint)
    else if s == "uvarint" then Some(Uvarint)
    else if s == "UTF-8" then Some(Utf8)
    else if s == "UTF-16" then Some(Utf16)
    else None
  }

  /** Each label reads back as its own entry. */
  lemma FromLabelInvertsLabel(t: InspectableType)
    ensures FromLabel(Label(t)) == Some(t)
  {
    match t
    case Uint8 =>
    case Int8 =>
    case Uint16 =>
    case Int16 =>
    case Uint24 =>
    case Int24 =>
    case Uint32 =>
    case Int32 =>
    case Int64 =>
    case Uint64 =>
    case Float32 =>
    case Float64 =>
    case Varint =>
    case Uvarint =>
    case Utf8 =>
    case Utf16 =>
  }

  /** No two entries share a label. */
  lemma LabelsAreDistinct(t: InspectableType, u: InspectableType)
    ensures Label(t) == Label(u) ==> t == u
  {
    FromLabelInvertsLabel(t);
    FromLabelInvertsLabel(u);
  }
}
