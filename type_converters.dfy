/**
 * type-converters.ts: the per-type casts applied to a value before it is
 * bound into a query.  `toGeneral` holds the integer range clamps and the
 * plain conversions, `toSql` and `toJs` the boolean conversions.  Each
 * table entry is a partially applied helper from util.ts; here the entry
 * is a `Caster` value and `Apply` runs it.
 */
module TypeConverters {
  import opened Wrappers
  import opened Js
  import opened Util
  import opened Schema

  /** The helpers the tables bind, with their bound arguments. */
  datatype Caster =
    | IntBetween(min: int, max: int)   // partial(toIntBetween, min, max)
    | IntMin(min: int)                 // partial(toIntMin, min)
    | AsInt                            // toInt
    | AsString                         // toString
    | SqlBoolean                       // toSqlBoolean
    | JsBoolean                        // toJsBoolean

  function Apply(c: Caster, v: Value): Value {
    match c
    case IntBetween(min, max) => ToIntBetween(min, max, v)
    case IntMin(min) => ToIntMin(min, v)
    case AsInt => ParseInt(v)
    case AsString => Str(ToStr(v))
    case SqlBoolean => Str(ToSqlBoolean(v))
    case JsBoolean => ToJsBoolean(v)
  }

  function Pow2(n: nat): (p: int)
    ensures p >= 1
  {
    if n == 0 then 1 else 2 * Pow2(n - 1)
  }

  /** The width of the fixed-size integer types. */
  function Bits(t: SchemaType): nat {
    match t
    case Int8 => 8
    case UInt8 => 8
    case Int16 => 16
    case UInt16 => 16
    case Int32 => 32
    case UInt32 => 32
    case _ => 64
  }

  /** `toGeneral[type]`; Boolean, Date and Decimal have no entry. */
  function ToGeneral(t: SchemaType): (r: Option<Caster>)
    ensures r.None? <==> t in {Boolean, Date, Decimal}
  {
    match t
    case Int8 => Some(IntBetween(-128, 127))
    case Int16 => Some(IntBetween(-32768, 32767))
    case Int32 => Some(IntBetween(-2147483648, 2147483647))
    case Int64 => Some(AsInt)
    case Ipv4 => Some(AsString)
    case UInt8 => Some(IntBetween(0, 255))
    case UInt16 => Some(IntBetween(0, 65535))
    case UInt32 => Some(IntBetween(0, 4294967295))
    case UInt64 => Some(IntMin(0))
    case String => Some(AsString)
    case TimestampMs => Some(AsInt)
    case TimestampS => Some(AsInt)
    case _ => None
  }

  /** `toSql[type]`: only Boolean has an entry. */
  function ToSql(t: SchemaType): (r: Option<Caster>)
    ensures r.Some? <==> t == Boolean
  {
    if t == Boolean then Some(SqlBoolean) else None
  }

  /** `toJs[type]`: only Boolean has an entry. */
  function ToJs(t: SchemaType): (r: Option<Caster>)
    ensures r.Some? <==> t == Boolean
  {
    if t == Boolean then Some(JsBoolean) else None
  }

  /** The signed types clamp to the two's-complement range of their width. */
  lemma SignedClamp(t: SchemaType, v: Value)
    requires t in {Int8, Int16, Int32}
    ensures ToGeneral(t) == Some(IntBetween(-Pow2(Bits(t) - 1), Pow2(Bits(t) - 1) - 1))
    ensures Apply(ToGeneral(t).value, v).Int? <==> ParseInt(v).Int?
    ensures Apply(ToGeneral(t).value, v).Int? ==>
      -Pow2(Bits(t) - 1) <= Apply(ToGeneral(t).value, v).i <= Pow2(Bits(t) - 1) - 1
    ensures ParseInt(v).Int? && -Pow2(Bits(t) - 1) <= ParseInt(v).i <= Pow2(Bits(t) - 1) - 1 ==>
      Apply(ToGeneral(t).value, v) == ParseInt(v)
  {
    PowersOfTwo();
    IntBetweenBound(-Pow2(Bits(t) - 1), Pow2(Bits(t) - 1) - 1, v);
  }

  /** The unsigned types clamp to [0, 2^n - 1]. */
  lemma UnsignedClamp(t: SchemaType, v: Value)
    requires t in {UInt8, UInt16, UInt32}
    ensures ToGeneral(t) == Some(IntBetween(0, Pow2(Bits(t)) - 1))
    ensures Apply(ToGeneral(t).value, v).Int? <==> ParseInt(v).Int?
    ensures Apply(ToGeneral(t).value, v).Int? ==> 0 <= Apply(ToGeneral(t).value, v).i <= Pow2(Bits(t)) - 1
    ensures ParseInt(v).Int? && 0 <= ParseInt(v).i <= Pow2(Bits(t)) - 1 ==>
      Apply(ToGeneral(t).value, v) == ParseInt(v)
  {
    PowersOfTwo();
    IntBetweenBound(0, Pow2(Bits(t)) - 1, v);
  }

  lemma {:induction false} PowersOfTwo()
    ensures Pow2(7) == 128 && Pow2(8) == 256
    ensures Pow2(15) == 32768 && Pow2(16) == 65536
    ensures Pow2(31) == 2147483648 && Pow2(32) == 4294967296
  {
    assert Pow2(4) == 16;
    assert Pow2(7) == 128 && Pow2(8) == 256;
    assert Pow2(12) == 4096;
    assert Pow2(15) == 32768 && Pow2(16) == 65536;
    assert Pow2(24) == 16777216;
    assert Pow2(31) == 2147483648;
  }

  /** UInt8 saturates at both ends (300 becomes 255, -5 becomes 0) and keeps what fits. */
  lemma UInt8Saturates(i: int)
    ensures Apply(ToGeneral(UInt8).value, Int(i)) == if i > 255 then Int(255) else if i < 0 then Int(0) else Int(i)
  {
    ParseIntOfInt(i);
  }

  /** UInt64 is only clamped below, at 0. */
  lemma UInt64Clamp(v: Value)
    ensures ToGeneral(UInt64) == Some(IntMin(0))
    ensures Apply(ToGeneral(UInt64).value, v).Int? <==> ParseInt(v).Int?
    ensures Apply(ToGeneral(UInt64).value, v).Int? ==> Apply(ToGeneral(UInt64).value, v).i >= 0
    ensures ParseInt(v).Int? && ParseInt(v).i >= 0 ==> Apply(ToGeneral(UInt64).value, v) == ParseInt(v)
  {
    assert Apply(ToGeneral(UInt64).value, v) == ToIntMin(0, v);
    IntMinBound(0, v);
  }

  /** Int64 and the timestamps are only parsed, never clamped. */
  lemma ParseOnly(t: SchemaType, v: Value)
    requires t in {Int64, TimestampMs, TimestampS}
    ensures ToGeneral(t) == Some(AsInt) && Apply(ToGeneral(t).value, v) == ParseInt(v)
  {
  }

  /** String and Ipv4 convert to their string form. */
  lemma StringForms(t: SchemaType, v: Value)
    requires t in {String, Ipv4}
    ensures ToGeneral(t).Some? && Apply(ToGeneral(t).value, v) == Str(ToStr(v))
  {
  }

  /** `toSql.Boolean` writes a truthy value as TRUE and anything else as FALSE; `toJs.Boolean` is the identity. */
  lemma BooleanCasts(v: Value)
    ensures Apply(ToSql(Boolean).value, v) == if Truthy(v) then Str("TRUE") else Str("FALSE")
    ensures Apply(ToJs(Boolean).value, v) == v
  {
  }
}
