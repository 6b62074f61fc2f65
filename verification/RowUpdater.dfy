/** Updating a row: set values overlay the old row, which overlays the schema's defaults. */
module RowUpdater {
  import opened Bytes
  import opened Multimaps
  import opened RowFormat
  import opened RowLayout
  import opened RowWriter
  import opened RowCodec
  import RR = RowReader

  /** A column of the writer schema with its default value, if it has one. */
  datatype Field = Field(name: string, t: SupportedType, default: Option<Value>)

  datatype Setter = SetBool | SetInt | SetFloat | SetDouble | SetString | SetVid

  /** The value a setter keeps for a column of type t; None is E_INCOMPATIBLE_TYPE. */
  function Kept(fc: FloatCasts, s: Setter, t: SupportedType, v: Value): (r: Option<Value>)
    ensures r.Some? ==> HasType(t, r.value)
  {
    match s
    case SetBool => if t.BOOL? && v.BoolV? then Some(v) else None
    case SetInt => if (t.INT? || t.TIMESTAMP?) && v.IntV? then Some(v) else None
    case SetVid => if t.VID? && v.IntV? then Some(v) else None
    case SetString => if t.STRING? && v.StrV? then Some(v) else None
    case SetFloat =>
      if t.FLOAT? && v.FloatV? then Some(v) else if t.DOUBLE? && v.FloatV? then Some(DoubleV(fc.widen(v.f))) else None
    case SetDouble =>
      if t.FLOAT? && v.DoubleV? then Some(FloatV(fc.narrow(v.d))) else if t.DOUBLE? && v.DoubleV? then Some(v) else None
  }

  /** The type of a setter's argument. */
  predicate Argument(s: Setter, v: Value) {
    match v
    case BoolV(_) => s == SetBool
    case IntV(_) => s == SetInt || s == SetVid
    case FloatV(_) => s == SetFloat
    case DoubleV(_) => s == SetDouble
    case StrV(_) => s == SetString
  }

  /** A float in a double column or the other way round. */
  predicate Converted(t: SupportedType, v: Value) {
    (t.DOUBLE? && v.FloatV?) || (t.FLOAT? && v.DoubleV?)
  }

  /** Vertex ids are set through their own setter, and nothing else is. */
  predicate Accepts(s: Setter, t: SupportedType, v: Value) {
    Argument(s, v) && (HasType(t, v) || Converted(t, v)) && (t.VID? <==> s == SetVid)
  }

  /** What is kept: a value of the column's type as it is, and a float or double converted; exactly
      these are accepted. */
  lemma KeptIs(fc: FloatCasts, s: Setter, t: SupportedType, v: Value)
    ensures Kept(fc, s, t, v).Some? <==> Accepts(s, t, v)
    ensures Accepts(s, t, v) && HasType(t, v) ==> Kept(fc, s, t, v) == Some(v)
    ensures Accepts(s, t, v) && t.DOUBLE? && v.FloatV? ==> Kept(fc, s, t, v) == Some(DoubleV(fc.widen(v.f)))
    ensures Accepts(s, t, v) && t.FLOAT? && v.DoubleV? ==> Kept(fc, s, t, v) == Some(FloatV(fc.narrow(v.d)))
  {
  }

  /** An accessor of the updater gives of a kept value what it gives of the column once that is
      encoded, wherever the column can be read through it. */
  lemma ViewKeptAgrees(fc: FloatCasts, g: Getter, t: SupportedType, v: Value)
    requires HasType(t, v)
    ensures Reading(fc, g, t, v).Got? ==> ViewKept(fc, g, v) == Some(Reading(fc, g, t, v).value)
    ensures ViewKept(fc, g, v).Some? && View(fc, g, t, v).None? <==>
      (t.VID? && (g.GetBool? || g.GetInt?)) || (t.TIMESTAMP? && g.GetVid?)
  {
    hide EncodeField;
  }

  /** The updater's own accessors on a kept value. */
  function ViewKept(fc: FloatCasts, g: Getter, v: Value): Option<Value> {
    match g
    case GetBool =>
      (match v case BoolV(_) => Some(v) case IntV(i) => Some(BoolV(i != 0)) case StrV(s) => Some(BoolV(StrToBool(s)))
               case _ => None)
    case GetInt => if v.IntV? then Some(v) else None
    case GetVid => if v.IntV? then Some(v) else None
    case GetFloat => if v.FloatV? then Some(v) else if v.DoubleV? then Some(FloatV(fc.narrow(v.d))) else None
    case GetDouble => if v.FloatV? then Some(DoubleV(fc.widen(v.f))) else if v.DoubleV? then Some(v) else None
    case GetString => if v.StrV? then Some(v) else None
  }

  function IndexOf(names: seq<string>, name: string): (r: int)
    ensures if r < 0 then name !in names else r < |names| && names[r] == name
  {
    if names == [] then -1
    else if names[|names| - 1] == name then |names| - 1
    else IndexOf(names[..|names| - 1], name)
  }

  datatype Lookup = Found(value: Value) | NotFound | Refused

  class RowUpdater {
    const fc: FloatCasts
    const schema: seq<Field>
    const version: int64
    /** The row updated, with the column names of its own schema; absent for a new row. */
    const reader: RR.RowReader?
    const names: seq<string>
    ghost const values: seq<Value>
    /** What a variable that no accessor has set happens to hold. */
    const unset: bool
    /** Keyed by the hash of the field name in the original; the hash is taken as injective. */
    var updated: map<string, Value>

    ghost predicate Valid()
      reads this, reader
    {
      (forall f :: f in schema && f.name in updated ==> HasType(f.t, updated[f.name])) &&
      (forall f :: f in schema && f.default.Some? ==> Stored(fc, f.t, f.default.value).Some?) &&
      HoldsOld() && (reader != null ==> reader.Valid() && reader.NoHoles())
    }

    /** The old row holds one value per name. */
    ghost predicate HoldsOld() {
      reader != null ==> reader.Holds(values) && |names| == |reader.types|
    }

    constructor (fc: FloatCasts, schema: seq<Field>, version: int64, reader: RR.RowReader?,
                 names: seq<string>, unset: bool, ghost values: seq<Value>)
      requires forall f :: f in schema && f.default.Some? ==> Stored(fc, f.t, f.default.value).Some?
      requires reader != null ==>
        reader.Valid() && reader.NoHoles() && reader.Holds(values) && |names| == |reader.types|
      ensures this.fc == fc && this.schema == schema && this.version == version && this.reader == reader
      ensures this.names == names && this.unset == unset && this.values == values && updated == map[] && Valid()
    {
      this.fc, this.schema, this.version, this.reader := fc, schema, version, reader;
      this.names, this.unset, this.values, updated := names, unset, values, map[];
    }

    /** The setters: keep the value under the name, or change nothing. */
    method Set(s: Setter, name: string, v: Value) returns (code: int)
      requires Valid() && Distinct(FieldNames(schema))
      modifies this`updated
      ensures Valid()
      ensures code == E_NAME_NOT_FOUND <==> forall f :: f in schema ==> f.name != name
      ensures code != 0 ==> updated == old(updated)
      ensures forall f :: f in schema && f.name == name ==>
        match Kept(fc, s, f.t, v)
        case None => code == E_INCOMPATIBLE_TYPE
        case Some(u) => code == 0 && updated == old(updated)[name := u]
      ensures forall f :: f in schema && f.name == name ==>
        (code == 0 <==> Accepts(s, f.t, v)) &&
        (code == 0 && HasType(f.t, v) ==> updated[name] == v && Overlay(f) == Found(v)) &&
        (code == 0 && f.t.DOUBLE? && v.FloatV? ==> updated[name] == DoubleV(fc.widen(v.f))) &&
        (code == 0 && f.t.FLOAT? && v.DoubleV? ==> updated[name] == FloatV(fc.narrow(v.d)))
      ensures forall f :: f in schema && f.name != name ==> Overlay(f) == old(Overlay(f))
    {
      var i := IndexOf(FieldNames(schema), name);
      if i < 0 {
        assert forall f :: f in schema ==> f.name != name by { NamesMissing(schema, name); }
        return E_NAME_NOT_FOUND;
      }
      assert schema[i] in schema;
      OnlyField(schema, i);
      KeptIs(fc, s, schema[i].t, v);
      match Kept(fc, s, schema[i].t, v)
      case None => return E_INCOMPATIBLE_TYPE;
      case Some(u) =>
        updated := updated[name := u];
        return 0;
    }

    /** What a field of the updated row must hold: the kept value, else the old row's, else the default. */
    ghost function Overlay(f: Field): Lookup
      requires f in schema && HoldsOld()
      reads this
    {
      if f.name in updated then Found(updated[f.name])
      else if reader != null && f.name in names then
        var i := IndexOf(names, f.name);
        match Reading(fc, GetterOf(f.t), reader.types[i], values[i])
        case Got(u, _) => Found(u)
        case GotUnset => Found(BoolV(unset))
        case GotErr(code) => if code == E_NAME_NOT_FOUND then Default(f) else Refused
      else Default(f)
    }

    /** The default the writer stores, if there is one. */
    ghost function Default(f: Field): Lookup {
      if f.default.Some? && Stored(fc, f.t, f.default.value).Some? then Found(Stored(fc, f.t, f.default.value).value)
      else NotFound
    }

    /** The old row has column i under this name. */
    ghost predicate OldColumn(f: Field, i: nat)
      requires HoldsOld()
    {
      reader != null && i < |names| && Distinct(names) && names[i] == f.name
    }

    /** A string of the old row whose byte count comes out negative. */
    ghost predicate OldTooLong(i: nat)
      requires HoldsOld() && reader != null && i < |names|
    {
      reader.types[i] == STRING && ToInt32(|EncodeField(STRING, values[i])|) < 0
    }

    /** Not in the old row, if there is one at all. */
    ghost predicate NewColumn(f: Field) {
      reader == null || f.name !in names
    }

    /** A column that was not set keeps the old value, and one that is new gets its default. An old
        value of a type that cannot be read as the new one, or of a count that comes out negative, is
        refused; but a count of -1 is taken for a missing name, and gives the default. */
    lemma OverlayIs(f: Field, i: nat)
      requires Valid() && f in schema
      ensures f.name in updated ==> Overlay(f) == Found(updated[f.name])
      ensures f.name !in updated && OldColumn(f, i) ==>
        (reader.types[i] == f.t && Readable(f.t, values[i]) ==> Overlay(f) == Found(values[i])) &&
        (View(fc, GetterOf(f.t), reader.types[i], values[i]) == None ==> Overlay(f) == Refused) &&
        (f.t == STRING && OldTooLong(i) ==>
          Overlay(f) == if ToInt32(|EncodeField(STRING, values[i])|) == -1 then Default(f) else Refused)
      ensures f.name !in updated && NewColumn(f) ==>
        (f.default == None ==> Overlay(f) == NotFound) &&
        (f.default.Some? && HasType(f.t, f.default.value) ==> Overlay(f) == Found(f.default.value))
    {
      if f.name !in updated && OldColumn(f, i) {
        assert IndexOf(names, f.name) == i;
        if reader.types[i] == f.t {
          ReadableIff(fc, f.t, values[i]);
        }
      }
      if f.default.Some? && HasType(f.t, f.default.value) {
        StoredOwn(fc, f.t, f.default.value);
      }
    }

    /** RU_OUTPUT_VALUE: the value handed to the writer for one field. */
    method Output(f: Field) returns (r: Lookup)
      requires Valid() && f in schema
      modifies reader
      ensures Valid()
      ensures match Overlay(f)
              case Found(u) => r.Found? && Stored(fc, f.t, r.value) == Some(u)
              case NotFound => r == NotFound
              case Refused => r == Refused
    {
      hide Reading, RR.Scan, EncodeField, WriteBytes;
      var g := GetterOf(f.t);
      if f.name in updated {
        var kept := ViewKept(fc, g, updated[f.name]);
        return Found(kept.value);
      }
      if reader != null {
        var i := IndexOf(names, f.name);
        if i >= 0 {
          GetterTyped(fc, f.t, reader.types[i], values[i]);
          var got := reader.ReadOne(fc, g, i, values);
          match got {
            case Got(v, _) => return Found(v);
            case GotUnset => return Found(BoolV(unset));
            case GotErr(code) =>
              if code != E_NAME_NOT_FOUND {
                return Refused;
              }
          }
        }
      }
      match f.default
      case None => return NotFound;
      case Some(d) => return Found(d);
    }

    lemma OverlayTyped(f: Field)
      requires Valid() && f in schema && Overlay(f).Found?
      ensures HasType(f.t, Overlay(f).value)
    {
      if f.name !in updated && reader != null && f.name in names {
        var i := IndexOf(names, f.name);
        GetterTyped(fc, f.t, reader.types[i], values[i]);
      }
    }

    /** Column k resolves to a value of its type. */
    ghost predicate Resolved(k: nat)
      requires HoldsOld() && k < |schema|
      reads this
    {
      Overlay(schema[k]).Found? && HasType(schema[k].t, Overlay(schema[k]).value)
    }

    /** The value column k of the updated row holds. */
    ghost function Held(k: nat): Value
      requires HoldsOld() && k < |schema| && Resolved(k)
      reads this
    {
      Overlay(schema[k]).value
    }

    ghost function Column(k: nat): seq<byte>
      requires HoldsOld() && k < |schema| && Resolved(k)
      reads this
    {
      EncodeField(schema[k].t, Held(k))
    }

    ghost predicate AllResolved()
      requires HoldsOld()
      reads this
    {
      forall k :: 0 <= k < |schema| ==> Resolved(k)
    }

    /** The columns of the updated row. */
    ghost function Columns(): (cs: seq<seq<byte>>)
      requires HoldsOld() && AllResolved()
      reads this
      ensures |cs| == |schema| && forall k :: 0 <= k < |schema| ==> Resolved(k) && cs[k] == Column(k)
    {
      seq(|schema|, k requires 0 <= k < |schema| && HoldsOld() && Resolved(k) reads this => Column(k))
    }

    /** The values of the updated row. */
    ghost function Overlaid(): (vs: seq<Value>)
      requires HoldsOld() && AllResolved()
      reads this
      ensures |vs| == |schema| && forall k :: 0 <= k < |schema| ==> Resolved(k) && vs[k] == Held(k)
    {
      seq(|schema|, k requires 0 <= k < |schema| && HoldsOld() && Resolved(k) reads this => Held(k))
    }

    lemma ColumnsAreFields()
      requires HoldsOld() && AllResolved()
      ensures WellTyped(FieldTypes(schema), Overlaid()) && Columns() == Fields(FieldTypes(schema), Overlaid())
    {
      var types, vs := FieldTypes(schema), Overlaid();
      forall k | 0 <= k < |schema|
        ensures HasType(types[k], vs[k]) && Columns()[k] == EncodeField(types[k], vs[k])
      {
        assert Resolved(k);
      }
    }

    /** One round of encode's loop: resolve column i and write it. */
    method WriteColumn(w: RowWriter, i: nat) returns (ok: bool)
      requires Valid() && i < |schema| && w.Valid() && w.LayoutOk() && w.colNum == i
      requires w.types == FieldTypes(schema)
      modifies reader, w
      ensures Valid() && w.Valid() && w.LayoutOk()
      ensures ok <==> Resolved(i)
      ensures ok ==> w.chunks == old(w.chunks) + [Column(i)]
    {
      var out := Output(schema[i]);
      ok := out.Found?;
      if ok {
        OverlayTyped(schema[i]);
        WriteStores(fc, schema[i].t, out.value);
        w.Write(fc, out.value);
      }
    }

    /** encode: succeeds exactly when every column resolves, and then writes the overlay. */
    method Encode() returns (r: Option<seq<byte>>)
      requires Valid()
      modifies reader
      ensures Valid()
      ensures r.Some? <==> AllResolved()
      ensures r.Some? ==> r.value == FullRow(version, Columns())
    {
      hide Resolved, Column, RowBytes, RightOffsets, Concat;
      var w := new RowWriter(FieldTypes(schema), version);
      for i := 0 to |schema|
        invariant Valid() && fresh(w) && w.types == FieldTypes(schema) && w.version == version
        invariant w.Valid() && w.LayoutOk() && w.colNum == i
        invariant forall k :: 0 <= k < i ==> Resolved(k) && w.chunks[k] == Column(k)
      {
        var ok := WriteColumn(w, i);
        if !ok {
          return None;
        }
      }
      assert w.chunks == Columns();
      var row := w.EncodeTo([]);
      assert w.chunks == Columns();
      r := Some(row);
    }

    /** Decoding the encoded update gives the overlay in every column, as far as the reader can
        give it back. */
    method EncodeThenRead(asked: seq<nat>) returns (out: Option<seq<Got>>)
      requires Valid() && 0 <= version < TWO_32
      requires AllResolved() ==> |Concat(Columns())| < TWO_63
      requires forall k :: 0 <= k < |asked| ==> asked[k] < |schema|
      modifies reader
      ensures out.Some? <==> AllResolved()
      ensures out.Some? ==> |out.value| == |asked|
      ensures out.Some? ==> forall k :: 0 <= k < |asked| ==>
        Resolved(asked[k]) &&
        (Reads(out.value[k], Held(asked[k])) <==> Readable(schema[asked[k]].t, Held(asked[k])))
    {
      var row := Encode();
      if row.None? {
        return None;
      }
      ColumnsAreFields();
      hide Resolved, Held, RowBytes, RightOffsets, Concat, Fields, RR.Expected, Valid, Readable;
      var types := FieldTypes(schema);
      var wanted := seq(|asked|, k requires 0 <= k < |asked| => (GetterOf(schema[asked[k]].t), asked[k]));
      var got := ReadBack(fc, types, row.value, wanted, version, Overlaid());
      forall k | 0 <= k < |asked|
        ensures Resolved(asked[k]) && HasType(types[asked[k]], Held(asked[k]))
        ensures Reads(got[k], Held(asked[k])) <==> Readable(types[asked[k]], Held(asked[k]))
      {
        assert OwnReads(types, Overlaid(), wanted[k], got[k]);
      }
      out := Some(got);
    }
  }

  function FieldNames(schema: seq<Field>): (ns: seq<string>)
    ensures |ns| == |schema| && forall i :: 0 <= i < |schema| ==> ns[i] == schema[i].name
  {
    seq(|schema|, i requires 0 <= i < |schema| => schema[i].name)
  }

  lemma NamesMissing(schema: seq<Field>, name: string)
    requires name !in FieldNames(schema)
    ensures forall f :: f in schema ==> f.name != name
  {
    forall f | f in schema
      ensures f.name in FieldNames(schema)
    {
      var i :| 0 <= i < |schema| && schema[i] == f;
      assert FieldNames(schema)[i] == f.name;
    }
  }

  lemma OnlyField(schema: seq<Field>, i: nat)
    requires i < |schema| && Distinct(FieldNames(schema))
    ensures forall f :: f in schema && f.name == schema[i].name ==> f == schema[i]
  {
    forall f | f in schema && f.name == schema[i].name
      ensures f == schema[i]
    {
      var j :| 0 <= j < |schema| && schema[j] == f;
      assert FieldNames(schema)[j] == FieldNames(schema)[i];
    }
  }

  /** What an accessor of type t reads, of whatever stored type, is a value for a column of type t. */
  lemma GetterTyped(fc: FloatCasts, t: SupportedType, from: SupportedType, v: Value)
    requires HasType(from, v)
    ensures match Reading(fc, GetterOf(t), from, v)
            case Got(u, _) => HasType(t, u) && Stored(fc, t, u) == Some(u)
            case GotUnset => t == BOOL
            case GotErr(_) => true
  {
    hide EncodeField;
  }

  function FieldTypes(schema: seq<Field>): (ts: seq<SupportedType>)
    ensures |ts| == |schema| && forall i :: 0 <= i < |schema| ==> ts[i] == schema[i].t
  {
    seq(|schema|, i requires 0 <= i < |schema| => schema[i].t)
  }
}
