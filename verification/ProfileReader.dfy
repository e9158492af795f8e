/** Reading profile fields out of a JSON object: each read stores one destination variable, and
    the first error stops all later reads. */
module ProfileReader {
  import opened SortedMaps
  import opened JsonValues

  datatype JsonType = NULLABLE | BOOLEAN | NUMBER | OBJECT | ARRAY | STRING

  datatype ArrayType = NUMBERS | OBJECTS | STRINGS | NOT_ARRAY

  datatype ParseResult = Success | PropTypeError | MissingProp

  // `slot` numbers the destination variable.
  datatype Field = Field(key: string, slot: nat, jsonType: JsonType, arrayType: ArrayType, isNecessary: bool)

  datatype Decoded = Value(v: Json) | Untouched | Fails(error: ParseResult)

  predicate HasElementType(j: Json, t: ArrayType)
  {
    match t
    case NUMBERS => j.Num?
    case OBJECTS => j.Obj?
    case STRINGS => j.Str?
    case NOT_ARRAY => false
  }

  /** Empty arrays, and arrays of no declared element type, are neither stored nor refused. */
  function DecodeArray(es: seq<Json>, t: ArrayType): Decoded
  {
    if es == [] || t.NOT_ARRAY? then Untouched
    else if forall i :: 0 <= i < |es| ==> HasElementType(es[i], t) then Value(Arr(es))
    else Fails(PropTypeError)
  }

  /** nlohmann's `find`: nothing is found in a value that is not an object. */
  function Find(json: Json, key: string): Option<Json>
  {
    if json.Obj? then Lookup(json.members, key) else None
  }

  /** One field on its own. */
  function Decode(json: Json, f: Field): (d: Decoded)
    ensures d.Fails? ==> d.error != Success
  {
    match Find(json, f.key)
    case None => if f.isNecessary then Fails(MissingProp) else Untouched
    case Some(v) =>
      match f.jsonType
      case NULLABLE => Untouched
      case ARRAY => if v.Arr? then DecodeArray(v.elems, f.arrayType) else Fails(PropTypeError)
      case BOOLEAN => if v.Bool? then Value(v) else Fails(PropTypeError)
      case NUMBER => if v.Num? then Value(v) else Fails(PropTypeError)
      case OBJECT => if v.Obj? then Value(v) else Fails(PropTypeError)
      case STRING => if v.Str? then Value(v) else Fails(PropTypeError)
  }

  // ---- what a field asks of a profile ----

  predicate Has(json: Json, key: string) { json.Obj? && Lookup(json.members, key).Some? }

  /** A required key is not there. */
  predicate Missing(json: Json, f: Field) { f.isNecessary && !Has(json, f.key) }

  /** A member of the declared type, down to the elements of an array. */
  predicate OfType(v: Json, f: Field)
  {
    match v
    case Bool(_) => f.jsonType == BOOLEAN || f.jsonType == NULLABLE
    case Num(_) => f.jsonType == NUMBER || f.jsonType == NULLABLE
    case Str(_) => f.jsonType == STRING || f.jsonType == NULLABLE
    case Obj(_) => f.jsonType == OBJECT || f.jsonType == NULLABLE
    case Null => f.jsonType == NULLABLE
    case Arr(es) =>
      || f.jsonType == NULLABLE
      || (f.jsonType == ARRAY && f.arrayType == NOT_ARRAY)
      || (f.jsonType == ARRAY && f.arrayType == NUMBERS && forall e :: e in es ==> e.Num?)
      || (f.jsonType == ARRAY && f.arrayType == OBJECTS && forall e :: e in es ==> e.Obj?)
      || (f.jsonType == ARRAY && f.arrayType == STRINGS && forall e :: e in es ==> e.Str?)
  }

  /** A key is there with a value of another type. */
  predicate IllTyped(json: Json, f: Field)
  {
    Has(json, f.key) && !OfType(Lookup(json.members, f.key).value, f)
  }

  /** The value that goes to the destination. */
  predicate Supplies(json: Json, f: Field, v: Json)
  {
    && json.Obj? && Lookup(json.members, f.key) == Some(v) && OfType(v, f)
    && f.jsonType != NULLABLE && (v.Arr? ==> v.elems != [] && f.arrayType != NOT_ARRAY)
  }

  /** The two errors and the stored value, each exactly when. */
  lemma DecodeIs(json: Json, f: Field)
    ensures Decode(json, f) == Fails(MissingProp) <==> Missing(json, f)
    ensures Decode(json, f) == Fails(PropTypeError) <==> IllTyped(json, f)
    ensures forall v :: Decode(json, f) == Value(v) <==> Supplies(json, f, v)
  {
    hide Lookup;
    if Has(json, f.key) && f.jsonType == ARRAY && Lookup(json.members, f.key).value.Arr? {
      var es := Lookup(json.members, f.key).value.elems;
      assert forall e :: e in es ==> exists i :: 0 <= i < |es| && es[i] == e;
    }
  }

  function Store(data: seq<Json>, slot: nat, d: Decoded): (r: seq<Json>)
    requires slot < |data|
    ensures |r| == |data|
  {
    if d.Value? then data[slot := d.v] else data
  }

  /** The walk over a non-empty array; a walk over objects stops at the first wrong element. */
  method CheckArrayType(es: seq<Json>, arrayType: ArrayType, data: array<Json>, slot: nat, parseResult: ParseResult)
    returns (r: ParseResult)
    requires slot < data.Length
    modifies data
    ensures var d := DecodeArray(es, arrayType);
            && r == (if d.Fails? then d.error else parseResult)
            && data[..] == if r.Success? then Store(old(data[..]), slot, d) else old(data[..])
  {
    r := parseResult;
    if es == [] || arrayType.NOT_ARRAY? {
      return;
    }
    var i := 0;
    while i < |es|
      invariant 0 <= i <= |es|
      invariant r == if exists j :: 0 <= j < i && !HasElementType(es[j], arrayType) then PropTypeError else parseResult
    {
      if !HasElementType(es[i], arrayType) {
        r := PropTypeError;
        if arrayType.OBJECTS? {
          break;
        }
      }
      i := i + 1;
    }
    if r.Success? {
      data[slot] := Arr(es);
    }
  }

  method GetValueIfFindKey(json: Json, f: Field, data: array<Json>, parseResult: ParseResult) returns (r: ParseResult)
    requires f.slot < data.Length
    modifies data
    ensures !parseResult.Success? ==> r == parseResult && data[..] == old(data[..])
    ensures parseResult.Success? ==>
              && r == (match Decode(json, f) case Fails(e) => e case _ => Success)
              && data[..] == Store(old(data[..]), f.slot, Decode(json, f))
    ensures parseResult.Success? && !(json.Obj? && Lookup(json.members, f.key).Some?) ==>
      r == (if f.isNecessary then MissingProp else Success) && data[..] == old(data[..])
    ensures parseResult.Success? && json.Obj? && Lookup(json.members, f.key).Some? ==>
      var v := Lookup(json.members, f.key).value;
      && (f.jsonType == NULLABLE ==> r == Success && data[..] == old(data[..]))
      && (v.Bool? && f.jsonType == BOOLEAN ==> r == Success && data[..] == old(data[..])[f.slot := v])
      && (v.Num? && f.jsonType == NUMBER ==> r == Success && data[..] == old(data[..])[f.slot := v])
      && (v.Obj? && f.jsonType == OBJECT ==> r == Success && data[..] == old(data[..])[f.slot := v])
      && (v.Str? && f.jsonType == STRING ==> r == Success && data[..] == old(data[..])[f.slot := v])
      && (v.Arr? && f.jsonType == ARRAY && (v.elems == [] || f.arrayType == NOT_ARRAY) ==>
            r == Success && data[..] == old(data[..]))
      && (v.Arr? && f.jsonType == ARRAY && v.elems != [] && f.arrayType != NOT_ARRAY && OfType(v, f) ==>
            r == Success && data[..] == old(data[..])[f.slot := v])
      && (!OfType(v, f) ==> r == PropTypeError && data[..] == old(data[..]))
  {
    hide Lookup;
    DecodeIs(json, f);
    r := parseResult;
    if !parseResult.Success? {
      return;
    }
    var found := Find(json, f.key);
    if found.Some? {
      var v := found.value;
      var ok := match f.jsonType
        case BOOLEAN => v.Bool?
        case NUMBER => v.Num?
        case OBJECT => v.Obj?
        case ARRAY => v.Arr?
        case STRING => v.Str?
        case NULLABLE => true;
      if !ok {
        r := PropTypeError;
      } else if f.jsonType.ARRAY? {
        r := CheckArrayType(v.elems, f.arrayType, data, f.slot, r);
      } else if !f.jsonType.NULLABLE? {
        data[f.slot] := v;
      }
      return;
    }
    if f.isNecessary {
      r := MissingProp;
    }
  }

  // ---- a whole profile ----

  /** Index of the first field that cannot be read. */
  function FirstBad(json: Json, fields: seq<Field>): (k: nat)
    ensures k <= |fields|
    ensures forall i :: 0 <= i < k ==> !Decode(json, fields[i]).Fails?
    ensures k < |fields| ==> Decode(json, fields[k]).Fails?
  {
    if fields == [] || Decode(json, fields[0]).Fails? then 0 else 1 + FirstBad(json, fields[1..])
  }

  predicate SlotsFit(fields: seq<Field>, n: nat) { forall i :: 0 <= i < |fields| ==> fields[i].slot < n }

  function Stored(json: Json, fields: seq<Field>, data: seq<Json>): (r: seq<Json>)
    requires SlotsFit(fields, |data|)
    ensures |r| == |data|
  {
    if fields == [] then data
    else
      var f := fields[|fields| - 1];
      Store(Stored(json, fields[..|fields| - 1], data), f.slot, Decode(json, f))
  }

  predicate Writes(json: Json, f: Field, s: nat) { f.slot == s && Decode(json, f).Value? }

  lemma {:induction false} NeverWritten(json: Json, fields: seq<Field>, data: seq<Json>, s: nat)
    requires SlotsFit(fields, |data|) && s < |data|
    requires forall i :: 0 <= i < |fields| ==> !Writes(json, fields[i], s)
    ensures Stored(json, fields, data)[s] == data[s]
  {
    hide Decode;
    if fields == [] {
    } else {
      NeverWritten(json, fields[..|fields| - 1], data, s);
      assert !Writes(json, fields[|fields| - 1], s);
    }
  }

  /** A destination holds what the last field stored in it decodes to on its own. */
  lemma {:induction false} LastWriterWins(json: Json, fields: seq<Field>, data: seq<Json>, s: nat, j: nat)
    requires SlotsFit(fields, |data|) && s < |data| && j < |fields|
    requires Writes(json, fields[j], s)
    requires forall i :: j < i < |fields| ==> !Writes(json, fields[i], s)
    ensures Stored(json, fields, data)[s] == Decode(json, fields[j]).v
  {
    hide Decode;
    var last := |fields| - 1;
    if j == last {
    } else {
      assert !Writes(json, fields[last], s);
      assert forall i :: 0 <= i < last ==> fields[..last][i] == fields[i];
      LastWriterWins(json, fields[..last], data, s, j);
    }
  }

  predicate IsFirstError(json: Json, fields: seq<Field>, k: int)
  {
    && 0 <= k < |fields| && (Missing(json, fields[k]) || IllTyped(json, fields[k]))
    && forall i :: 0 <= i < k ==> !Missing(json, fields[i]) && !IllTyped(json, fields[i])
  }

  lemma FirstBadIs(json: Json, fields: seq<Field>)
    ensures var k := FirstBad(json, fields);
            var r := if k < |fields| then Decode(json, fields[k]).error else Success;
            && (r == Success <==>
                  forall i :: 0 <= i < |fields| ==> !Missing(json, fields[i]) && !IllTyped(json, fields[i]))
            && forall i :: IsFirstError(json, fields, i) ==>
                 r == if Missing(json, fields[i]) then MissingProp else PropTypeError
  {
    hide Decode, Missing, IllTyped, FirstBad;
    forall i | 0 <= i < |fields|
      ensures Decode(json, fields[i]).Fails? <==> Missing(json, fields[i]) || IllTyped(json, fields[i])
      ensures Decode(json, fields[i]) == Fails(MissingProp) <==> Missing(json, fields[i])
      ensures Decode(json, fields[i]) == Fails(PropTypeError) <==> IllTyped(json, fields[i])
    {
      DecodeIs(json, fields[i]);
    }
  }

  /** Reads all fields in order. The result is the error of the first field that cannot be read;
      every field before it is stored as it decodes on its own, and it and all later ones leave
      their destinations alone. */
  method ReadProfile(json: Json, fields: seq<Field>, data: array<Json>) returns (r: ParseResult)
    requires SlotsFit(fields, data.Length)
    modifies data
    ensures var k := FirstBad(json, fields);
            && r == (if k < |fields| then Decode(json, fields[k]).error else Success)
            && data[..] == Stored(json, fields[..k], old(data[..]))
    ensures r == Success <==> forall i :: 0 <= i < |fields| ==> !Missing(json, fields[i]) && !IllTyped(json, fields[i])
    ensures forall i :: IsFirstError(json, fields, i) ==>
      r == if Missing(json, fields[i]) then MissingProp else PropTypeError
  {
    hide Decode, Missing, IllTyped, IsFirstError;
    FirstBadIs(json, fields);
    r := Success;
    ghost var k := FirstBad(json, fields);
    for i := 0 to |fields|
      invariant r == if i <= k then Success else Decode(json, fields[k]).error
      invariant data[..] == Stored(json, fields[..if i <= k then i else k], old(data[..]))
    {
      r := GetValueIfFindKey(json, fields[i], data, r);
      assert fields[..i + 1][..i] == fields[..i];
      if i == k { assert !Decode(json, fields[k]).Value?; }
    }
    assert fields[..|fields|] == fields;
  }

  /** With one destination per field, every destination is decided by its own field alone. */
  lemma EachFieldOnItsOwn(json: Json, fields: seq<Field>, data: seq<Json>, j: nat)
    requires SlotsFit(fields, |data|) && j < |fields|
    requires forall a, b :: 0 <= a < b < |fields| ==> fields[a].slot != fields[b].slot
    ensures var k := FirstBad(json, fields);
            var d := Decode(json, fields[j]);
            Stored(json, fields[..k], data)[fields[j].slot] == (if j < k && d.Value? then d.v else data[fields[j].slot])
  {
    hide Decode, FirstBad, Stored;
    var done := fields[..FirstBad(json, fields)];
    var s := fields[j].slot;
    forall i | 0 <= i < |done| && i != j ensures !Writes(json, done[i], s) {
      assert done[i] == fields[i] && fields[i].slot != s;
    }
    if j < |done| && Decode(json, fields[j]).Value? {
      assert done[j] == fields[j] && Writes(json, done[j], s);
      LastWriterWins(json, done, data, s, j);
    } else {
      NeverWritten(json, done, data, s);
    }
  }
}
