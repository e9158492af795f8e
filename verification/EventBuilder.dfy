/** FormHiSysEventBuilder: parameters that point into buffers the builder owns. */
module EventBuilder {
  import opened SortedMaps

  const MAX_PARAM_COUNT := 64
  const NUL := 0 as char

  // `Unset` is the tag of a zero-initialised parameter.
  datatype Tag =
    | Unset
    | TagBool | TagInt8 | TagUint8 | TagInt32 | TagUint32 | TagInt64 | TagUint64 | TagFloat | TagDouble
    | TagString
    | TagBoolArray | TagUint8Array | TagInt32Array | TagUint32Array | TagInt64Array | TagUint64Array
    | TagStringArray

  const INTEGER_TAGS := {TagInt8, TagUint8, TagInt32, TagUint32, TagInt64, TagUint64}
  const INTEGER_ARRAY_TAGS := {TagUint8Array, TagInt32Array, TagUint32Array, TagInt64Array, TagUint64Array}

  /** The values of the C++ type behind an integer tag. */
  predicate InWidth(t: Tag, n: int)
  {
    match t
    case TagInt8 => -0x80 <= n < 0x80
    case TagUint8 => 0 <= n < 0x100
    case TagUint8Array => 0 <= n < 0x100
    case TagInt32 => -0x8000_0000 <= n < 0x8000_0000
    case TagInt32Array => -0x8000_0000 <= n < 0x8000_0000
    case TagUint32 => 0 <= n < 0x1_0000_0000
    case TagUint32Array => 0 <= n < 0x1_0000_0000
    case TagInt64 => -0x8000_0000_0000_0000 <= n < 0x8000_0000_0000_0000
    case TagInt64Array => -0x8000_0000_0000_0000 <= n < 0x8000_0000_0000_0000
    case TagUint64 => 0 <= n < 0x1_0000_0000_0000_0000
    case TagUint64Array => 0 <= n < 0x1_0000_0000_0000_0000
    case _ => false
  }

  type Length = n: nat | 0 < n witness 1

  datatype CharPtr = CharPtr(buffer: array<char>, offset: nat)

  // The union in HiSysEventParam; null pointers are allowed for empty arrays.
  datatype Value =
    | Zero
    | Integer(n: int)
    | Truth(b: bool)
    | Decimal(r: real)
    | Chars(s: array?<char>)
    | Integers(ints: array?<int>)
    | Truths(bools: array?<bool>)
    | CharPtrs(ptrs: array?<CharPtr>)

  datatype Param = Param(name: string, t: Tag, v: Value, arraySize: nat)

  // What a parameter means: its bytes instead of its pointers.
  datatype Deep =
    | DeepInteger(n: int)
    | DeepTruth(b: bool)
    | DeepDecimal(r: real)
    | DeepString(s: string)
    | DeepIntegers(ints: seq<int>)
    | DeepTruths(bools: seq<bool>)
    | DeepStrings(strings: seq<string>)

  datatype Field = Field(name: string, t: Tag, deep: Deep)

  /** The tag is the one the source uses for values of this type. */
  predicate Typed(t: Tag, d: Deep)
  {
    match d
    case DeepInteger(n) => t in INTEGER_TAGS && InWidth(t, n)
    case DeepTruth(_) => t == TagBool
    case DeepDecimal(_) => t == TagFloat || t == TagDouble
    case DeepString(_) => t == TagString
    case DeepIntegers(ns) => t in INTEGER_ARRAY_TAGS && forall i :: 0 <= i < |ns| ==> InWidth(t, ns[i])
    case DeepTruths(_) => t == TagBoolArray
    case DeepStrings(_) => t == TagStringArray
  }

  // ---- C strings ----

  /** The bytes before the first NUL. */
  function CStr(s: string): string
  {
    if s == "" || s[0] == NUL then "" else [s[0]] + CStr(s[1..])
  }

  function Zeros(n: nat): string { seq(n, _ => NUL) }

  lemma {:induction false} CStrLength(s: string)
    ensures |CStr(s)| <= |s| && forall i :: 0 <= i < |CStr(s)| ==> CStr(s)[i] != NUL
  {
    if s == "" || s[0] == NUL {
    } else {
      CStrLength(s[1..]);
    }
  }

  /** A C string followed by a NUL and anything reads back as itself. */
  lemma {:induction false} CStrOf(s: string, rest: string)
    requires forall i :: 0 <= i < |s| ==> s[i] != NUL
    ensures CStr(s + [NUL] + rest) == s
  {
    if s == "" {
      assert ("" + [NUL] + rest)[0] == NUL;
    } else {
      assert (s + [NUL] + rest)[1..] == s[1..] + [NUL] + rest;
      CStrOf(s[1..], rest);
    }
  }

  /** The bytes in front of the first NUL, if there is one. */
  lemma {:induction false} CStrIs(s: string)
    ensures CStr(s) <= s && NUL !in CStr(s)
    ensures |CStr(s)| == |s| || s[|CStr(s)|] == NUL
  {
    if s == "" || s[0] == NUL {
    } else {
      CStrIs(s[1..]);
      assert s == [s[0]] + s[1..];
    }
  }

  /** `name` is as much of the key as is a C string and fits in front of the field's last byte. */
  predicate Abbreviates(name: string, key: string, limit: Length)
  {
    && name <= key && NUL !in name && |name| < limit
    && (|name| == |key| || key[|name|] == NUL || |name| == limit - 1)
  }

  lemma ShortNameIs(key: string, limit: Length)
    ensures Abbreviates(ShortName(key, limit), key, limit)
  {
    CStrIs(key);
  }

  /** There is only one such name. */
  lemma OnlyAbbreviation(name: string, key: string, limit: Length)
    requires Abbreviates(name, key, limit)
    ensures name == ShortName(key, limit)
  {
    hide ShortName;
    var short := ShortName(key, limit);
    ShortNameIs(key, limit);
    assert forall i :: 0 <= i < |name| ==> key[i] == name[i] != NUL;
    assert forall i :: 0 <= i < |short| ==> key[i] == short[i] != NUL;
  }

  /** What strncpy_s leaves of a key in a name field of `limit` bytes. */
  function ShortName(key: string, limit: Length): string
  {
    CStrLength(key);
    if |CStr(key)| < limit then CStr(key) else CStr(key)[..limit - 1]
  }

  // ---- packed string arrays ----

  function Offset(values: seq<string>, i: nat): nat
    requires i <= |values|
  {
    if i == 0 then 0 else Offset(values, i - 1) + |values[i - 1]| + 1
  }

  /** What strcpy_s leaves of a value in its zero-initialised segment of length size + 1. */
  function Segment(v: string): (r: string)
    ensures |r| == |v| + 1
  {
    CStrLength(v);
    CStr(v) + Zeros(|v| + 1 - |CStr(v)|)
  }

  function Pack(values: seq<string>, i: nat): (r: string)
    requires i <= |values|
    ensures |r| == Offset(values, i)
  {
    if i == 0 then "" else Pack(values, i - 1) + Segment(values[i - 1])
  }

  lemma {:induction false} OffsetsAscend(values: seq<string>, i: nat, j: nat)
    requires i < j <= |values|
    ensures Offset(values, i) + |values[i]| + 1 <= Offset(values, j)
    decreases j
  {
    if j == i + 1 {
    } else {
      OffsetsAscend(values, i, j - 1);
    }
  }

  lemma {:induction false} PackHolds(values: seq<string>, i: nat, n: nat)
    requires i < n <= |values|
    ensures Offset(values, i + 1) <= Offset(values, n)
    ensures Pack(values, n)[Offset(values, i)..Offset(values, i + 1)] == Segment(values[i])
    decreases n
  {
    if i + 1 < n {
      OffsetsAscend(values, i, n - 1);
      PackHolds(values, i, n - 1);
      var (a, b) := (Offset(values, i), Offset(values, i + 1));
      assert Pack(values, n) == Pack(values, n - 1) + Segment(values[n - 1]);
      assert Pack(values, n)[a..b] == Pack(values, n - 1)[a..b];
    } else {
      var a := Offset(values, i);
      assert Pack(values, n) == Pack(values, i) + Segment(values[i]);
      assert (Pack(values, i) + Segment(values[i]))[a..] == Segment(values[i]);
      assert Pack(values, n)[a..Offset(values, n)] == Pack(values, n)[a..];
    }
  }

  /** Pointer i sees value i up to its first NUL; segment i ends where segment i + 1 begins, and
      the last one ends with the buffer. */
  lemma PackedPointerReads(values: seq<string>, i: nat)
    requires i < |values|
    ensures Offset(values, i) + |values[i]| + 1 == Offset(values, i + 1) <= |Pack(values, |values|)|
    ensures CStr(Pack(values, |values|)[Offset(values, i)..]) == CStr(values[i])
    ensures NUL in Pack(values, |values|)[Offset(values, i)..]
  {
    var p := Pack(values, |values|);
    PackHolds(values, i, |values|);
    CStrLength(values[i]);
    var c := CStr(values[i]);
    var tail := p[Offset(values, i)..];
    var seg := Segment(values[i]);
    assert tail == seg + p[Offset(values, i + 1)..];
    var rest := seg[|c| + 1..] + p[Offset(values, i + 1)..];
    assert seg == c + [NUL] + seg[|c| + 1..];
    assert tail == c + [NUL] + rest;
    CStrOf(c, rest);
  }

  // ---- parameters and the memory they refer to ----

  /** The object a parameter points at. */
  ghost function Target(v: Value): set<object>
  {
    match v
    case Chars(a) => if a == null then {} else {a as object}
    case Integers(a) => if a == null then {} else {a as object}
    case Truths(a) => if a == null then {} else {a as object}
    case CharPtrs(a) => if a == null then {} else {a as object}
    case _ => {}
  }

  /** Every object a parameter's pointers lead to. */
  ghost function Memory(v: Value): set<object>
    reads Target(v)
  {
    Target(v) + if v.CharPtrs? && v.ptrs != null && v.ptrs.Length > 0 then {v.ptrs[0].buffer as object} else {}
  }

  ghost predicate Matches(p: Param, f: Field)
    reads Target(p.v), Memory(p.v)
  {
    && p.name == f.name && p.t == f.t && Typed(f.t, f.deep)
    && match f.deep
       case DeepInteger(n) => p.v == Integer(n)
       case DeepTruth(b) => p.v == Truth(b)
       case DeepDecimal(r) => p.v == Decimal(r)
       case DeepString(s) => p.v.Chars? && p.v.s != null && p.v.s[..] == s + [NUL]
       case DeepIntegers(xs) =>
         p.v.Integers? && p.arraySize == |xs| &&
         (if xs == [] then p.v.ints == null else p.v.ints != null && p.v.ints[..] == xs)
       case DeepTruths(bs) =>
         p.v.Truths? && p.arraySize == |bs| &&
         (if bs == [] then p.v.bools == null else p.v.bools != null && p.v.bools[..] == bs)
       case DeepStrings(ss) =>
         p.v.CharPtrs? && p.arraySize == |ss| &&
         (if ss == [] then p.v.ptrs == null else p.v.ptrs != null && Packed(p.v.ptrs, ss))
  }

  /** One buffer holds all the strings, and pointer i points at the start of segment i. */
  ghost predicate Packed(ptrs: array<CharPtr>, ss: seq<string>)
    requires ss != []
    reads ptrs, if ptrs.Length > 0 then {ptrs[0].buffer} else {}
  {
    && ptrs.Length == |ss|
    && ptrs[0].buffer[..] == Pack(ss, |ss|)
    && forall i :: 0 <= i < |ss| ==> ptrs[i] == CharPtr(ptrs[0].buffer, Offset(ss, i))
  }

  // ---- what the event service sees through the pointers ----

  /** Following the tag, every access of a reader stays inside live memory: strings end with a NUL
      before their buffer does, and arrays hold as many elements as announced. */
  ghost predicate Legal(p: Param)
    reads Target(p.v), Memory(p.v)
  {
    if p.t in INTEGER_TAGS then p.v.Integer?
    else if p.t == TagBool then p.v.Truth?
    else if p.t == TagFloat || p.t == TagDouble then p.v.Decimal?
    else if p.t == TagString then p.v.Chars? && p.v.s != null && NUL in p.v.s[..]
    else if p.t in INTEGER_ARRAY_TAGS then
      p.v.Integers? && (p.arraySize > 0 ==> p.v.ints != null && p.arraySize <= p.v.ints.Length)
    else if p.t == TagBoolArray then
      p.v.Truths? && (p.arraySize > 0 ==> p.v.bools != null && p.arraySize <= p.v.bools.Length)
    else
      && p.t == TagStringArray && p.v.CharPtrs?
      && (p.arraySize > 0 ==> p.v.ptrs != null && p.arraySize <= p.v.ptrs.Length)
      && forall i :: 0 <= i < p.arraySize ==> LegalPointer(p.v.ptrs, i)
  }

  ghost predicate LegalPointer(ptrs: array<CharPtr>, i: nat)
    requires i < ptrs.Length
    reads ptrs, ptrs[0].buffer
  {
    && ptrs[i].buffer == ptrs[0].buffer && ptrs[i].offset <= ptrs[0].buffer.Length
    && NUL in ptrs[0].buffer[ptrs[i].offset..]
  }

  /** What a reader finds there. */
  ghost function Seen(p: Param): Deep
    requires Legal(p)
    reads Target(p.v), Memory(p.v)
  {
    if p.t in INTEGER_TAGS then DeepInteger(p.v.n)
    else if p.t == TagBool then DeepTruth(p.v.b)
    else if p.t == TagFloat || p.t == TagDouble then DeepDecimal(p.v.r)
    else if p.t == TagString then DeepString(CStr(p.v.s[..]))
    else if p.t in INTEGER_ARRAY_TAGS then DeepIntegers(if p.arraySize == 0 then [] else p.v.ints[..p.arraySize])
    else if p.t == TagBoolArray then DeepTruths(if p.arraySize == 0 then [] else p.v.bools[..p.arraySize])
    else DeepStrings(PointedAt(p, p.arraySize))
  }

  /** The first `n` strings of a string array, each read from its pointer to the first NUL. */
  ghost function PointedAt(p: Param, n: nat): (r: seq<string>)
    requires Legal(p) && p.t == TagStringArray && n <= p.arraySize
    reads Target(p.v), Memory(p.v)
    ensures |r| == n
  {
    if n == 0 then []
    else
      assert LegalPointer(p.v.ptrs, n - 1);
      PointedAt(p, n - 1) + [CStr(p.v.ptrs[n - 1].buffer[p.v.ptrs[n - 1].offset..])]
  }

  function CStrs(ss: seq<string>): (r: seq<string>)
    ensures |r| == |ss|
  {
    seq(|ss|, i requires 0 <= i < |ss| => CStr(ss[i]))
  }

  /** An inserted field as a reader of C strings gets it. */
  function AsRead(f: Field): Field
  {
    match f.deep
    case DeepString(s) => f.(deep := DeepString(CStr(s)))
    case DeepStrings(ss) => f.(deep := DeepStrings(CStrs(ss)))
    case _ => f
  }

  /** Name, tag and numbers are read as they were inserted, and strings up to their first NUL. */
  predicate ReadFrom(seen: Field, f: Field)
  {
    && seen.name == f.name && seen.t == f.t
    && match f.deep
       case DeepString(s) => seen.deep.DeepString? && FirstPart(seen.deep.s, s)
       case DeepStrings(ss) =>
         && seen.deep.DeepStrings? && |seen.deep.strings| == |ss|
         && forall i :: 0 <= i < |ss| ==> FirstPart(seen.deep.strings[i], ss[i])
       case _ => seen.deep == f.deep
  }

  predicate FirstPart(r: string, s: string) { r <= s && NUL !in r && (|r| == |s| || s[|r|] == NUL) }

  lemma AsReadIs(f: Field)
    ensures ReadFrom(AsRead(f), f)
  {
    if f.deep.DeepString? { CStrIs(f.deep.s); }
    if f.deep.DeepStrings? {
      forall i | 0 <= i < |f.deep.strings| ensures FirstPart(CStr(f.deep.strings[i]), f.deep.strings[i]) {
        CStrIs(f.deep.strings[i]);
      }
    }
  }

  function AllAsRead(fs: seq<Field>): (r: seq<Field>)
    ensures |r| == |fs|
  {
    seq(|fs|, i requires 0 <= i < |fs| => AsRead(fs[i]))
  }

  lemma {:induction false} CStrStops(s: string)
    ensures CStr(s + [NUL]) == CStr(s)
  {
    if s == "" {
      assert ("" + [NUL])[0] == NUL;
    } else {
      assert (s + [NUL])[1..] == s[1..] + [NUL];
      CStrStops(s[1..]);
    }
  }

  lemma StringsReadBack(p: Param, f: Field)
    requires Matches(p, f) && f.deep.DeepStrings?
    ensures Legal(p)
    ensures forall i: nat :: i < p.arraySize ==>
      LegalPointer(p.v.ptrs, i) && CStr(p.v.ptrs[i].buffer[p.v.ptrs[i].offset..]) == CStr(f.deep.strings[i])
  {
    hide CStr, Pack, Offset;
    var ss := f.deep.strings;
    forall i: nat | i < p.arraySize
      ensures LegalPointer(p.v.ptrs, i)
      ensures CStr(p.v.ptrs[i].buffer[p.v.ptrs[i].offset..]) == CStr(ss[i])
    {
      PackedPointerReads(ss, i);
      assert p.v.ptrs[i].buffer[p.v.ptrs[i].offset..] == Pack(ss, |ss|)[Offset(ss, i)..];
    }
  }

  lemma {:induction false} PointedAtIs(p: Param, f: Field, n: nat)
    requires Matches(p, f) && f.deep.DeepStrings? && Legal(p) && p.t == TagStringArray
    requires n <= p.arraySize == |f.deep.strings|
    ensures PointedAt(p, n) == CStrs(f.deep.strings)[..n]
    decreases n
  {
    hide CStr, Matches, Legal, LegalPointer;
    if n == 0 {
    } else {
      PointedAtIs(p, f, n - 1);
      StringsReadBack(p, f);
      var all := CStrs(f.deep.strings);
      assert all[n - 1] == CStr(f.deep.strings[n - 1]);
      assert all[..n] == all[..n - 1] + [all[n - 1]];
    }
  }

  lemma MatchedSize(p: Param, f: Field)
    requires Matches(p, f) && f.deep.DeepStrings?
    ensures p.t == TagStringArray && p.arraySize == |f.deep.strings|
  {
  }

  lemma StringReadsBack(p: Param, f: Field)
    requires Matches(p, f) && f.deep.DeepString?
    ensures Legal(p) && Seen(p) == DeepString(CStr(f.deep.s))
  {
    hide CStr;
    CStrStops(f.deep.s);
    assert p.v.s[..][|f.deep.s|] == NUL;
  }

  lemma SeenStrings(p: Param)
    requires Legal(p) && p.t == TagStringArray
    ensures Seen(p) == DeepStrings(PointedAt(p, p.arraySize))
  {
    hide PointedAt, LegalPointer;
  }

  lemma PackedStringsReadBack(p: Param, f: Field)
    requires Matches(p, f) && f.deep.DeepStrings?
    ensures Legal(p) && Seen(p) == DeepStrings(CStrs(f.deep.strings))
  {
    hide CStrs, PointedAt, Matches, Legal, Seen;
    StringsReadBack(p, f);
    MatchedSize(p, f);
    SeenStrings(p);
    PointedAtIs(p, f, p.arraySize);
    assert CStrs(f.deep.strings)[..p.arraySize] == CStrs(f.deep.strings);
  }

  /** Whoever follows a parameter's pointers finds the field that was inserted. */
  lemma ReadsBack(p: Param, f: Field)
    requires Matches(p, f)
    ensures Legal(p) && Field(p.name, p.t, Seen(p)) == AsRead(f)
  {
    hide CStr, CStrs, PointedAt, Packed;
    match f.deep {
      case DeepString(_) => StringReadsBack(p, f);
      case DeepStrings(_) => PackedStringsReadBack(p, f);
      case _ =>
    }
  }

  function ScalarDeep(v: Value): Deep
    requires v.Integer? || v.Truth? || v.Decimal?
  {
    match v case Integer(n) => DeepInteger(n) case Truth(b) => DeepTruth(b) case Decimal(r) => DeepDecimal(r)
  }

  lemma TypedIsSet(t: Tag, d: Deep)
    requires Typed(t, d)
    ensures t != Unset
  {
  }

  lemma StringMatches(p: Param, buffer: array<char>, s: string)
    requires p.v == Chars(buffer) && p.t == TagString && buffer[..] == s + [NUL]
    ensures Matches(p, Field(p.name, p.t, DeepString(s)))
  {
  }

  lemma IntegersMatch(p: Param, buffer: array<int>, values: seq<int>)
    requires p.v == Integers(buffer) && p.arraySize == buffer.Length && buffer[..] == values != []
    requires Typed(p.t, DeepIntegers(values))
    ensures Matches(p, Field(p.name, p.t, DeepIntegers(values)))
  {
  }

  lemma TruthsMatch(p: Param, buffer: array<bool>, values: seq<bool>)
    requires p.v == Truths(buffer) && p.arraySize == buffer.Length && buffer[..] == values != [] && p.t == TagBoolArray
    ensures Matches(p, Field(p.name, p.t, DeepTruths(values)))
  {
  }

  lemma StringsMatch(p: Param, ptrs: array<CharPtr>, values: seq<string>)
    requires p.v == CharPtrs(ptrs) && p.arraySize == ptrs.Length && p.t == TagStringArray
    requires values != [] && Packed(ptrs, values)
    ensures Matches(p, Field(p.name, p.t, DeepStrings(values)))
  {
  }

  class FormHiSysEventBuilder {
    const nameLimit: Length // MAX_LENGTH_OF_PARAM_NAME
    var params: seq<Param>
    var stringBuffers: seq<array<char>>
    var stringArrayBuffers: seq<array<char>>
    var charPtrArrayBuffers: seq<array<CharPtr>>
    var integerArrayBuffers: map<Tag, seq<array<int>>> // one vector per element type
    var boolArrayBuffers: seq<array<bool>>

    ghost var Contents: seq<Field> // what was inserted since the last Clear
    ghost var Repr: set<object>    // the buffers
    ghost var faulted: bool

    /** What a parameter points at is in the list that keeps buffers of that kind alive. */
    ghost predicate KeptAlive(p: Param)
      reads `stringBuffers, `stringArrayBuffers, `charPtrArrayBuffers, `integerArrayBuffers, `boolArrayBuffers
      reads Target(p.v)
    {
      match p.v
      case Chars(a) => a == null || a in stringBuffers
      case Integers(a) => a == null || (p.t in integerArrayBuffers && a in integerArrayBuffers[p.t])
      case Truths(a) => a == null || a in boolArrayBuffers
      case CharPtrs(a) => a == null || (a in charPtrArrayBuffers && a.Length > 0 && a[0].buffer in stringArrayBuffers)
      case _ => true
    }

    /** No pointer dangles: each buffer a parameter leads to is owned by the list of its kind. */
    lemma BuffersAlive(i: nat)
      requires Valid() && i < |params|
      ensures var p := params[i];
              && (p.t == TagString ==> p.v.Chars? && p.v.s != null && p.v.s in stringBuffers)
              && (p.t == TagBoolArray && p.arraySize > 0 ==>
                    p.v.Truths? && p.v.bools != null && p.v.bools in boolArrayBuffers)
              && (p.t in INTEGER_ARRAY_TAGS && p.arraySize > 0 ==>
                    p.v.Integers? && p.v.ints != null && p.v.ints in integerArrayBuffers[p.t])
              && (p.t == TagStringArray && p.arraySize > 0 ==>
                    && p.v.CharPtrs? && p.v.ptrs != null && p.v.ptrs in charPtrArrayBuffers
                    && p.v.ptrs.Length == p.arraySize
                    && forall j :: 0 <= j < p.arraySize ==> p.v.ptrs[j].buffer in stringArrayBuffers)
    {
      assert KeptAlive(params[i]) && Matches(params[i], Contents[i]);
    }

    ghost predicate Valid()
      reads `params, `Contents, `Repr, `stringBuffers, `stringArrayBuffers
      reads `charPtrArrayBuffers, `integerArrayBuffers, `boolArrayBuffers
      reads Repr
    {
      && this !in Repr
      && integerArrayBuffers.Keys == INTEGER_ARRAY_TAGS
      && |params| == |Contents| <= MAX_PARAM_COUNT
      && (forall i :: 0 <= i < |params| ==> Target(params[i].v) <= Repr && Memory(params[i].v) <= Repr)
      && (forall i :: 0 <= i < |params| ==> KeptAlive(params[i]) && Matches(params[i], Contents[i]))
      && (forall i, j :: 0 <= i < j < |params| ==> Memory(params[i].v) !! Memory(params[j].v))
    }

    twostate predicate Untouched()
      reads this
    {
      && params == old(params) && Contents == old(Contents) && Repr == old(Repr)
      && stringBuffers == old(stringBuffers) && stringArrayBuffers == old(stringArrayBuffers)
      && charPtrArrayBuffers == old(charPtrArrayBuffers) && integerArrayBuffers == old(integerArrayBuffers)
      && boolArrayBuffers == old(boolArrayBuffers)
    }

    /** What every insert does: nothing past the cap; otherwise it appends one parameter, unless
        a copy fails, and an earlier parameter is never changed. */
    twostate predicate Inserted(key: string, t: Tag, deep: Deep)
      reads this
    {
      && (old(faulted) ==> faulted)
      && (|old(params)| >= MAX_PARAM_COUNT || |params| == |old(params)| ==> Untouched())
      && InsertedFrom(old(params), old(Contents), key, t, deep)
    }

    ghost predicate InsertedFrom(before: seq<Param>, contents: seq<Field>, key: string, t: Tag, deep: Deep)
      reads `params, `Contents, `faulted
    {
      if |before| >= MAX_PARAM_COUNT then params == before && Contents == contents
      else
        || (params == before && Contents == contents && faulted)
        || (AppendedField(before, contents, t, deep) && NameIs(params[|before|].name, key))
    }

    /** The step of a run that an insert amounts to. */
    ghost function Made(before: seq<Param>, key: string, t: Tag, deep: Deep): Call
      reads `params
    {
      if |before| >= MAX_PARAM_COUNT then Insert(Field(ShortName(key, nameLimit), t, deep), false)
      else if |params| <= |before| then Insert(Field(ShortName(key, nameLimit), t, deep), true)
      else Insert(Field(params[|before|].name, t, deep), false)
    }

    /** An insert is one step of the run below, cancelled or renamed only by a fault, and leaves
        earlier parameters as they are. */
    lemma InsertedIsAStep(before: seq<Param>, contents: seq<Field>, key: string, t: Tag, deep: Deep)
      requires InsertedFrom(before, contents, key, t, deep) && |contents| == |before|
      ensures var call := Made(before, key, t, deep);
              && Contents == Apply(contents, call) && call.Insert? && call.field.deep == deep && call.field.t == t
              && (!faulted ==> call == Insert(Field(ShortName(key, nameLimit), t, deep), false))
      ensures before <= params
    {
      hide ShortName;
    }

    ghost predicate NameIs(name: string, key: string)
      reads `faulted
    {
      name == ShortName(key, nameLimit) || (name == "" && faulted)
    }

    ghost predicate AppendedField(before: seq<Param>, contents: seq<Field>, t: Tag, deep: Deep)
      reads `params, `Contents
    {
      && |params| == |before| + 1 && params[..|before|] == before
      && Contents == contents + [Field(params[|before|].name, t, deep)]
    }

    constructor (nameLimit: Length)
      ensures Valid() && Contents == [] && this.nameLimit == nameLimit && !faulted && Repr == {}
    {
      this.nameLimit := nameLimit;
      params := [];
      stringBuffers, stringArrayBuffers, charPtrArrayBuffers, boolArrayBuffers := [], [], [], [];
      integerArrayBuffers := map t | t in INTEGER_ARRAY_TAGS :: [];
      Contents := [];
      Repr := {};
      faulted := false;
    }

    method CheckParamCount() returns (ok: bool)
      ensures ok <==> |params| < MAX_PARAM_COUNT
    {
      ok := |params| < MAX_PARAM_COUNT;
    }

    /** Returns a parameter with the zero tag when the cap is reached. */
    method PrepareParam(key: string, t: Tag) returns (param: Param)
      requires Valid() && t != Unset
      modifies this`faulted
      ensures Valid() && (old(faulted) ==> faulted)
      ensures |params| >= MAX_PARAM_COUNT ==> param.t == Unset
      ensures |params| < MAX_PARAM_COUNT ==> param.t == t && param.arraySize == 0
      ensures |params| < MAX_PARAM_COUNT ==> NameIs(param.name, key)
      ensures |params| < MAX_PARAM_COUNT ==>
        Abbreviates(param.name, key, nameLimit) || (param.name == "" && faulted)
    {
      param := Param("", Unset, Zero, 0);
      var room := CheckParamCount();
      if !room {
        return;
      }
      var name := SetParamName(key);
      param := Param(name, t, Zero, 0);
    }

    method SetParamName(key: string) returns (name: string)
      requires Valid()
      modifies this`faulted
      ensures Valid() && (old(faulted) ==> faulted)
      ensures NameIs(name, key)
      ensures !faulted ==> name <= key && NUL !in name && |name| < nameLimit
      ensures !faulted ==> |name| == |key| || key[|name|] == NUL || |name| == nameLimit - 1
      ensures Abbreviates(name, key, nameLimit) || (name == "" && faulted)
    {
      hide ShortName;
      var copied: bool := *;
      if !copied {
        faulted := true;
        return "";
      }
      var k := 0;
      name := "";
      while k < |key| && key[k] != NUL && k < nameLimit - 1
        invariant 0 <= k <= |key| && k <= nameLimit - 1
        invariant name == key[..k] && NUL !in name
      {
        name := name + [key[k]];
        k := k + 1;
      }
      OnlyAbbreviation(name, key, nameLimit);
    }

    /** params_.emplace_back(param), once its buffers are in their lists. */
    method Append(param: Param, ghost deep: Deep)
      requires Valid() && |params| < MAX_PARAM_COUNT
      requires Target(param.v) <= Repr && Memory(param.v) <= Repr && KeptAlive(param)
      requires Matches(param, Field(param.name, param.t, deep))
      requires forall i :: 0 <= i < |params| ==> Memory(params[i].v) !! Memory(param.v)
      modifies this`params, this`Contents
      ensures Valid()
      ensures AppendedField(old(params), old(Contents), param.t, deep) && params[|old(params)|] == param
    {
      hide Matches;
      params := params + [param];
      Contents := Contents + [Field(param.name, param.t, deep)];
    }

    /** The nine overloads for scalars. */
    method InsertScalar(key: string, t: Tag, v: Value)
      requires Valid() && (v.Integer? || v.Truth? || v.Decimal?) && Typed(t, ScalarDeep(v))
      modifies this`params, this`Contents, this`faulted
      ensures Valid()
      ensures Inserted(key, t, ScalarDeep(v))
      ensures |old(params)| < MAX_PARAM_COUNT ==> |params| == |old(params)| + 1
      ensures |params| > |old(params)| ==>
        var p := params[|old(params)|];
        p.t == t && p.v == v && (Abbreviates(p.name, key, nameLimit) || (p.name == "" && faulted))
    {
      hide Abbreviates;
      hide Valid, ShortName, Matches, KeptAlive, Typed;
      TypedIsSet(t, ScalarDeep(v));
      var param := PrepareParam(key, t);
      if param.t != t {
        return;
      }
      AddScalar(param, v);
    }

    method AddScalar(param: Param, v: Value)
      requires Valid() && |params| < MAX_PARAM_COUNT
      requires (v.Integer? || v.Truth? || v.Decimal?) && Typed(param.t, ScalarDeep(v))
      modifies this`params, this`Contents
      ensures Valid()
      ensures AppendedField(old(params), old(Contents), param.t, ScalarDeep(v))
      ensures params[|old(params)|] == param.(v := v)
    {
      hide Valid, Typed;
      Append(param.(v := v), ScalarDeep(v));
    }

    // ---- inserting what needs a buffer ----

    /** A secure copy function reported an error. */
    method Fail()
      requires Valid()
      modifies this`faulted
      ensures Valid() && faulted
    {
      faulted := true;
    }

    // Each of these puts a new buffer in its list and appends the parameter that points at it.

    method AddString(param: Param, buffer: array<char>, ghost s: string)
      requires Valid() && |params| < MAX_PARAM_COUNT
      requires buffer !in Repr && buffer[..] == s + [NUL] && param.t == TagString
      modifies this`stringBuffers, this`Repr, this`params, this`Contents
      ensures Valid() && Repr == old(Repr) + {buffer}
      ensures AppendedField(old(params), old(Contents), param.t, DeepString(s))
      ensures params[|old(params)|].name == param.name
    {
      hide Matches, Typed;
      var filled := param.(v := Chars(buffer));
      StringMatches(filled, buffer, s);
      stringBuffers := stringBuffers + [buffer];
      Repr := Repr + {buffer};
      Append(filled, DeepString(s));
    }

    method AddIntegers(param: Param, buffer: array<int>, ghost values: seq<int>)
      requires Valid() && |params| < MAX_PARAM_COUNT
      requires buffer !in Repr && buffer[..] == values != [] && Typed(param.t, DeepIntegers(values))
      modifies this`integerArrayBuffers, this`Repr, this`params, this`Contents
      ensures Valid() && Repr == old(Repr) + {buffer}
      ensures AppendedField(old(params), old(Contents), param.t, DeepIntegers(values))
      ensures params[|old(params)|].name == param.name
    {
      hide Matches, InWidth;
      var filled := param.(v := Integers(buffer), arraySize := buffer.Length);
      IntegersMatch(filled, buffer, values);
      integerArrayBuffers := integerArrayBuffers[param.t := integerArrayBuffers[param.t] + [buffer]];
      Repr := Repr + {buffer};
      Append(filled, DeepIntegers(values));
    }

    method AddTruths(param: Param, buffer: array<bool>, ghost values: seq<bool>)
      requires Valid() && |params| < MAX_PARAM_COUNT
      requires buffer !in Repr && buffer[..] == values != [] && param.t == TagBoolArray
      modifies this`boolArrayBuffers, this`Repr, this`params, this`Contents
      ensures Valid() && Repr == old(Repr) + {buffer}
      ensures AppendedField(old(params), old(Contents), param.t, DeepTruths(values))
      ensures params[|old(params)|].name == param.name
    {
      hide Matches, Typed;
      var filled := param.(v := Truths(buffer), arraySize := buffer.Length);
      TruthsMatch(filled, buffer, values);
      boolArrayBuffers := boolArrayBuffers + [buffer];
      Repr := Repr + {buffer};
      Append(filled, DeepTruths(values));
    }

    method AddStrings(param: Param, buffer: array<char>, ptrs: array<CharPtr>, ghost values: seq<string>)
      requires Valid() && |params| < MAX_PARAM_COUNT && param.t == TagStringArray
      requires buffer !in Repr && ptrs !in Repr && values != [] && Packed(ptrs, values) && ptrs[0].buffer == buffer
      modifies this`stringArrayBuffers, this`charPtrArrayBuffers, this`Repr, this`params, this`Contents
      ensures Valid() && Repr == old(Repr) + {buffer, ptrs}
      ensures AppendedField(old(params), old(Contents), param.t, DeepStrings(values))
      ensures params[|old(params)|].name == param.name
    {
      hide Matches, Typed;
      var filled := param.(v := CharPtrs(ptrs), arraySize := ptrs.Length);
      StringsMatch(filled, ptrs, values);
      stringArrayBuffers := stringArrayBuffers + [buffer];
      charPtrArrayBuffers := charPtrArrayBuffers + [ptrs];
      Repr := Repr + {buffer, ptrs};
      Append(filled, DeepStrings(values));
    }

    /** An empty vector: no buffer, a null pointer and length 0. */
    method AddEmpty(param: Param, v: Value, ghost deep: Deep)
      requires Valid() && |params| < MAX_PARAM_COUNT && param.arraySize == 0 && Typed(param.t, deep)
      requires (v == Integers(null) && deep == DeepIntegers([])) || (v == Truths(null) && deep == DeepTruths([]))
            || (v == CharPtrs(null) && deep == DeepStrings([]))
      modifies this`params, this`Contents
      ensures Valid()
      ensures AppendedField(old(params), old(Contents), param.t, deep) && params[|old(params)|].name == param.name
    {
      hide Valid, Typed;
      Append(param.(v := v), deep);
    }

    /** None is the null pointer; std::string values come here through c_str(). */
    method InsertString(key: string, value: Option<string>)
      requires Valid()
      modifies this
      ensures Valid() && fresh(Repr - old(Repr))
      ensures value == None ==> Untouched() && faulted == old(faulted)
      ensures value.Some? ==> Inserted(key, TagString, DeepString(CStr(value.value)))
    {
      hide Valid, ShortName, Packed, Target, Memory, Matches, KeptAlive, NameIs;
      if value.None? {
        return;
      }
      var param := PrepareParam(key, TagString);
      if param.t != TagString {
        return;
      }
      var ok, buffer := CopyCString(value.value);
      if !ok {
        Fail();
        return;
      }
      AddString(param, buffer, CStr(value.value));
    }

    /** The parameter is in with its buffers, or a copy failed and nothing changed. */
    twostate predicate Stored(param: Param, deep: Deep)
      reads this
    {
      if params == old(params) then Untouched() && faulted
      else
        && faulted == old(faulted) && AppendedField(old(params), old(Contents), param.t, deep)
        && params[|old(params)|].name == param.name
    }

    /** The five overloads for integer vectors; an empty vector leaves a null pointer. */
    method InsertIntegers(key: string, t: Tag, values: seq<int>)
      requires Valid() && Typed(t, DeepIntegers(values))
      modifies this
      ensures Valid() && fresh(Repr - old(Repr))
      ensures Inserted(key, t, DeepIntegers(values))
    {
      hide Typed, Valid, NameIs;
      TypedIsSet(t, DeepIntegers(values));
      var param := PrepareParam(key, t);
      if param.t != t {
        return;
      }
      StoreIntegers(param, values);
    }

    method StoreIntegers(param: Param, values: seq<int>)
      requires Valid() && |params| < MAX_PARAM_COUNT && param.arraySize == 0 && Typed(param.t, DeepIntegers(values))
      modifies this
      ensures Valid() && fresh(Repr - old(Repr))
      ensures Stored(param, DeepIntegers(values))
    {
      hide Typed, Valid, Matches, KeptAlive, Target, Memory;
      if values == [] {
        AddEmpty(param, Integers(null), DeepIntegers([]));
        return;
      }
      var ok, buffer := CopyIntegers(values);
      if !ok {
        Fail();
        return;
      }
      AddIntegers(param, buffer, values);
    }

    method InsertTruths(key: string, values: seq<bool>)
      requires Valid()
      modifies this
      ensures Valid() && fresh(Repr - old(Repr))
      ensures Inserted(key, TagBoolArray, DeepTruths(values))
    {
      hide Valid, NameIs;
      var param := PrepareParam(key, TagBoolArray);
      if param.t != TagBoolArray {
        return;
      }
      StoreTruths(param, values);
    }

    method StoreTruths(param: Param, values: seq<bool>)
      requires Valid() && |params| < MAX_PARAM_COUNT && param.arraySize == 0 && param.t == TagBoolArray
      modifies this
      ensures Valid() && fresh(Repr - old(Repr))
      ensures Stored(param, DeepTruths(values))
    {
      hide Valid, Matches, KeptAlive, Target, Memory;
      if values == [] {
        AddEmpty(param, Truths(null), DeepTruths([]));
        return;
      }
      var buffer := CopyTruths(values);
      AddTruths(param, buffer, values);
    }

    method InsertStrings(key: string, values: seq<string>)
      requires Valid()
      modifies this
      ensures Valid() && fresh(Repr - old(Repr))
      ensures Inserted(key, TagStringArray, DeepStrings(values))
    {
      hide Valid, NameIs;
      var param := PrepareParam(key, TagStringArray);
      if param.t != TagStringArray {
        return;
      }
      StoreStrings(param, values);
    }

    method StoreStrings(param: Param, values: seq<string>)
      requires Valid() && |params| < MAX_PARAM_COUNT && param.arraySize == 0 && param.t == TagStringArray
      modifies this
      ensures Valid() && fresh(Repr - old(Repr))
      ensures Stored(param, DeepStrings(values))
    {
      hide Valid, Packed, Matches, KeptAlive, Target, Memory;
      if values == [] {
        AddEmpty(param, CharPtrs(null), DeepStrings([]));
        return;
      }
      var ok, buffer, ptrArray := PackStrings(values);
      if !ok {
        Fail();
        return;
      }
      AddStrings(param, buffer, ptrArray, values);
    }

    // ---- handing over and clearing ----

    /** What the event service reads through the parameters is what was inserted, every string up
        to its first NUL; afterwards nothing is left. */
    method Write() returns (ret: int, ghost sent: seq<Field>)
      requires Valid()
      modifies this
      ensures sent == AllAsRead(old(Contents))
      ensures |sent| == |old(params)| && forall i :: 0 <= i < |sent| ==> ReadFrom(sent[i], old(Contents)[i])
      ensures Valid() && params == [] && Contents == [] && Repr == {} && faulted == old(faulted)
    {
      hide Legal, Seen, Matches, AsRead, KeptAlive, ReadFrom;
      forall i | 0 <= i < |params|
        ensures Legal(params[i]) && Field(params[i].name, params[i].t, Seen(params[i])) == AsRead(Contents[i])
      {
        ReadsBack(params[i], Contents[i]);
      }
      ret, sent := HiSysEventWrite(params);
      forall i | 0 <= i < |sent| ensures ReadFrom(AsRead(Contents[i]), Contents[i]) {
        AsReadIs(Contents[i]);
      }
      Clear();
    }

    method Clear()
      requires Valid()
      modifies this
      ensures Valid() && params == [] && Contents == [] && Repr == {} && faulted == old(faulted)
      ensures stringBuffers == [] && stringArrayBuffers == [] && charPtrArrayBuffers == [] && boolArrayBuffers == []
      ensures forall t :: t in integerArrayBuffers ==> integerArrayBuffers[t] == []
    {
      params := [];
      stringBuffers := [];
      stringArrayBuffers := [];
      charPtrArrayBuffers := [];
      integerArrayBuffers := map t | t in INTEGER_ARRAY_TAGS :: [];
      boolArrayBuffers := [];
      Contents := [];
      Repr := {};
    }

    /** `call` is what the request `r` did to the fields. */
    twostate predicate Took(call: Call, r: Request)
      requires WellTyped(r)
      reads this
    {
      && (old(faulted) ==> faulted)
      && Contents == Apply(old(Contents), call) && Answers(call, r)
      && (!faulted ==> call == CallOf(r, nameLimit))
      && (!call.Flush? ==> old(params) <= params)
    }

    method PerformScalar(r: Request) returns (ghost call: Call)
      requires Valid() && r.ScalarRequest? && WellTyped(r)
      modifies this
      ensures Valid() && fresh(Repr - old(Repr)) && Took(call, r)
    {
      hide Valid, InsertedFrom, Made, Typed, ShortName, Apply, Answers, CallOf;
      ghost var before, contents := params, Contents;
      CountsAgree();
      InsertScalar(r.key, r.t, r.v);
      InsertedIsAStep(before, contents, r.key, r.t, ScalarDeep(r.v));
      call := Made(before, r.key, r.t, ScalarDeep(r.v));
      DueInsert(call, r, nameLimit, r.t, ScalarDeep(r.v));
    }

    method PerformIntegers(r: Request) returns (ghost call: Call)
      requires Valid() && r.IntegersRequest? && WellTyped(r)
      modifies this
      ensures Valid() && fresh(Repr - old(Repr)) && Took(call, r)
    {
      hide Valid, InsertedFrom, Made, Typed, ShortName, Apply, Answers, CallOf;
      ghost var before, contents := params, Contents;
      CountsAgree();
      InsertIntegers(r.key, r.t, r.ints);
      InsertedIsAStep(before, contents, r.key, r.t, DeepIntegers(r.ints));
      call := Made(before, r.key, r.t, DeepIntegers(r.ints));
      DueInsert(call, r, nameLimit, r.t, DeepIntegers(r.ints));
    }

    method PerformTruths(r: Request) returns (ghost call: Call)
      requires Valid() && r.TruthsRequest? && WellTyped(r)
      modifies this
      ensures Valid() && fresh(Repr - old(Repr)) && Took(call, r)
    {
      hide Valid, InsertedFrom, Made, Typed, ShortName, Apply, Answers, CallOf;
      ghost var before, contents := params, Contents;
      CountsAgree();
      InsertTruths(r.key, r.bools);
      InsertedIsAStep(before, contents, r.key, TagBoolArray, DeepTruths(r.bools));
      call := Made(before, r.key, TagBoolArray, DeepTruths(r.bools));
      DueInsert(call, r, nameLimit, TagBoolArray, DeepTruths(r.bools));
    }

    method PerformStrings(r: Request) returns (ghost call: Call)
      requires Valid() && r.StringsRequest? && WellTyped(r)
      modifies this
      ensures Valid() && fresh(Repr - old(Repr)) && Took(call, r)
    {
      hide Valid, InsertedFrom, Made, Typed, ShortName, Apply, Answers, CallOf;
      ghost var before, contents := params, Contents;
      CountsAgree();
      InsertStrings(r.key, r.strings);
      InsertedIsAStep(before, contents, r.key, TagStringArray, DeepStrings(r.strings));
      call := Made(before, r.key, TagStringArray, DeepStrings(r.strings));
      DueInsert(call, r, nameLimit, TagStringArray, DeepStrings(r.strings));
    }

    method PerformString(r: Request) returns (ghost call: Call)
      requires Valid() && r.StringRequest? && WellTyped(r)
      modifies this
      ensures Valid() && fresh(Repr - old(Repr)) && Took(call, r)
    {
      hide Valid, InsertedFrom, Made, Typed, ShortName, Apply, Answers, CallOf;
      ghost var before, contents := params, Contents;
      CountsAgree();
      InsertString(r.key, r.value);
      if r.value.Some? {
        InsertedIsAStep(before, contents, r.key, TagString, DeepString(CStr(r.value.value)));
        call := Made(before, r.key, TagString, DeepString(CStr(r.value.value)));
        DueInsert(call, r, nameLimit, TagString, DeepString(CStr(r.value.value)));
      } else {
        SkipKeeps(Contents);
        NullIsSkipped(r, nameLimit);
        call := Skip;
      }
    }

    method PerformFlush(r: Request) returns (ghost call: Call)
      requires Valid() && (r.WriteRequest? || r.ClearRequest?)
      modifies this
      ensures Valid() && fresh(Repr - old(Repr)) && Took(call, r)
    {
      hide Valid, Apply;
      FlushEmpties(Contents);
      call := Flush;
      if r.WriteRequest? {
        var ret;
        ghost var sent;
        ret, sent := Write();
      } else {
        Clear();
      }
    }

    /** Any one call on the object. */
    method Perform(r: Request) returns (ghost call: Call)
      requires Valid() && WellTyped(r)
      modifies this
      ensures Valid() && fresh(Repr - old(Repr)) && Took(call, r)
    {
      hide Valid, Took, WellTyped;
      match r {
        case ScalarRequest(_, _, _) => call := PerformScalar(r);
        case StringRequest(_, _) => call := PerformString(r);
        case IntegersRequest(_, _, _) => call := PerformIntegers(r);
        case TruthsRequest(_, _) => call := PerformTruths(r);
        case StringsRequest(_, _) => call := PerformStrings(r);
        case _ => call := PerformFlush(r);
      }
    }

    lemma CountsAgree()
      requires Valid()
      ensures |Contents| == |params|
    {
    }

    /** Any run of calls on the object is a run on its fields, exactly the one the requests ask for
        as long as nothing fails. */
    method PerformAll(rs: seq<Request>) returns (ghost calls: seq<Call>)
      requires Valid() && forall i :: 0 <= i < |rs| ==> WellTyped(rs[i])
      modifies this
      ensures Valid() && fresh(Repr - old(Repr)) && (old(faulted) ==> faulted)
      ensures |calls| == |rs| && forall i :: 0 <= i < |rs| ==> Answers(calls[i], rs[i])
      ensures Contents == Run(old(Contents), calls)
      ensures !faulted ==> calls == CallsOf(rs, nameLimit)
    {
      hide Valid, Answers, Apply, CallOf, WellTyped;
      calls := [];
      for n := 0 to |rs|
        invariant Valid() && fresh(Repr - old(Repr)) && (old(faulted) ==> faulted)
        invariant |calls| == n && forall i :: 0 <= i < n ==> Answers(calls[i], rs[i])
        invariant Contents == Run(old(Contents), calls)
        invariant !faulted ==> calls == CallsOf(rs, nameLimit)[..n]
      {
        ghost var call := Perform(rs[n]);
        RunOneMore(old(Contents), calls, call);
        calls := calls + [call];
      }
    }
  }

  /** OH_HiSysEvent_Write: reads every parameter through its pointers, which must be legal, and
      answers anything. */
  method HiSysEventWrite(params: seq<Param>) returns (ret: int, ghost seen: seq<Field>)
    requires forall i :: 0 <= i < |params| ==> Legal(params[i])
    ensures |seen| == |params|
    ensures forall i :: 0 <= i < |params| ==>
      Legal(params[i]) && seen[i] == Field(params[i].name, params[i].t, Seen(params[i]))
  {
    hide Legal, Seen;
    ret := *;
    seen := [];
    for i := 0 to |params|
      invariant |seen| == i
      invariant forall j :: 0 <= j < i ==> seen[j] == Field(params[j].name, params[j].t, Seen(params[j]))
    {
      seen := seen + [Field(params[i].name, params[i].t, Seen(params[i]))];
    }
  }

  /** strcpy_s: writes nothing outside the destMax bytes it is given, and nothing after the NUL. */
  method StrCpyS(dest: array<char>, off: nat, destMax: nat, src: string) returns (ok: bool)
    requires |CStr(src)| < destMax && off + destMax <= dest.Length
    modifies dest
    ensures forall i :: 0 <= i < dest.Length && !(off <= i < off + destMax) ==> dest[i] == old(dest[i])
    ensures ok ==> dest[off..off + |CStr(src)| + 1] == CStr(src) + [NUL]
    ensures ok ==> forall i :: off + |CStr(src)| < i < off + destMax ==> dest[i] == old(dest[i])
  {
    ok := *;
    if !ok {
      dest[off] := NUL;
      return;
    }
    var c := CStr(src);
    forall i | 0 <= i <= |c| {
      dest[off + i] := if i < |c| then c[i] else NUL;
    }
  }

  method CopyCString(value: string) returns (ok: bool, buffer: array<char>)
    ensures fresh(buffer)
    ensures ok ==> buffer[..] == CStr(value) + [NUL]
  {
    var len := |CStr(value)| + 1;
    buffer := new char[len](_ => NUL);
    ok := StrCpyS(buffer, 0, len, value);
  }

  /** memcpy_s of a whole vector. */
  method CopyIntegers(values: seq<int>) returns (ok: bool, buffer: array<int>)
    ensures fresh(buffer)
    ensures ok ==> buffer[..] == values
  {
    buffer := new int[|values|];
    ok := *;
    if ok {
      forall i | 0 <= i < |values| {
        buffer[i] := values[i];
      }
    }
  }

  method CopyTruths(values: seq<bool>) returns (buffer: array<bool>)
    ensures fresh(buffer) && buffer[..] == values
  {
    buffer := new bool[|values|];
    for i := 0 to |values|
      invariant forall j :: 0 <= j < i ==> buffer[j] == values[j]
    {
      buffer[i] := values[i];
    }
  }

  method TotalLength(values: seq<string>) returns (totalLen: nat)
    ensures totalLen == Offset(values, |values|)
  {
    totalLen := 0;
    for i := 0 to |values|
      invariant totalLen == Offset(values, i)
    {
      totalLen := totalLen + |values[i]| + 1;
    }
  }

  /** All strings in one buffer, each in a segment of its size plus one. */
  method PackStrings(values: seq<string>) returns (ok: bool, buffer: array<char>, ptrArray: array<CharPtr>)
    requires values != []
    ensures fresh(buffer) && fresh(ptrArray)
    ensures ok ==> Packed(ptrArray, values) && ptrArray[0].buffer == buffer
  {
    hide Pack, Offset, Segment, CStr;
    PackStart(values);
    var totalLen := TotalLength(values);
    buffer := new char[totalLen](_ => NUL);
    ptrArray := new CharPtr[|values|](_ => CharPtr(buffer, 0));
    var ptr := 0;
    for i := 0 to |values|
      invariant ptr == Offset(values, i) <= totalLen == Offset(values, |values|)
      invariant buffer[..ptr] == Pack(values, i)
      invariant forall j :: ptr <= j < totalLen ==> buffer[j] == NUL
      invariant forall j :: 0 <= j < i ==> ptrArray[j] == CharPtr(buffer, Offset(values, j))
    {
      SegmentFits(values, i);
      ok := WriteSegment(buffer, ptr, values[i]);
      if !ok {
        return;
      }
      ptrArray[i] := CharPtr(buffer, ptr);
      ptr := ptr + |values[i]| + 1;
    }
    assert buffer[..ptr] == buffer[..];
    ok := true;
  }

  lemma SegmentInPlace(b: string, ptr: nat, v: string)
    requires ptr + |v| + 1 <= |b| && |CStr(v)| <= |v|
    requires b[ptr..ptr + |CStr(v)| + 1] == CStr(v) + [NUL]
    requires forall j :: ptr + |CStr(v)| < j < ptr + |v| + 1 ==> b[j] == NUL
    ensures b[ptr..ptr + |v| + 1] == Segment(v)
  {
    hide CStr;
    var (c, seg) := (CStr(v), b[ptr..ptr + |v| + 1]);
    assert seg[..|c|] == b[ptr..ptr + |c| + 1][..|c|] == c;
    assert b[ptr..ptr + |c| + 1][|c|] == NUL;
    assert seg[|c|..] == Zeros(|v| + 1 - |c|);
    assert seg == seg[..|c|] + seg[|c|..];
  }

  /** One turn of the packing loop, into memory that is still zero. */
  method WriteSegment(buffer: array<char>, ptr: nat, value: string) returns (ok: bool)
    requires ptr + |value| + 1 <= buffer.Length
    requires forall j :: ptr <= j < buffer.Length ==> buffer[j] == NUL
    modifies buffer
    ensures ok ==> buffer[..ptr + |value| + 1] == old(buffer[..ptr]) + Segment(value)
    ensures forall j :: ptr + |value| + 1 <= j < buffer.Length ==> buffer[j] == NUL
  {
    hide CStr, Segment;
    CStrLength(value);
    ok := StrCpyS(buffer, ptr, |value| + 1, value);
    if ok {
      SegmentInPlace(buffer[..], ptr, value);
      assert buffer[..ptr] == old(buffer[..ptr]);
      assert buffer[..ptr + |value| + 1] == buffer[..ptr] + buffer[..][ptr..ptr + |value| + 1];
    }
  }

  lemma PackStart(values: seq<string>)
    ensures Offset(values, 0) == 0 && Pack(values, 0) == ""
  {
  }

  lemma SegmentFits(values: seq<string>, i: nat)
    requires i < |values|
    ensures Offset(values, i) + |values[i]| + 1 == Offset(values, i + 1) <= Offset(values, |values|)
    ensures Pack(values, i + 1) == Pack(values, i) + Segment(values[i])
  {
    OffsetsAscend(values, i, |values|);
  }

  // ---- whole runs ----

  // A call on the builder.
  datatype Request =
    | ScalarRequest(key: string, t: Tag, v: Value)
    | StringRequest(key: string, value: Option<string>)
    | IntegersRequest(key: string, t: Tag, ints: seq<int>)
    | TruthsRequest(key: string, bools: seq<bool>)
    | StringsRequest(key: string, strings: seq<string>)
    | WriteRequest
    | ClearRequest

  // What a call does to the fields: an insert, which a failing copy may cancel, nothing for a
  // null string, or a Write or Clear.
  datatype Call = Insert(field: Field, cancelled: bool) | Skip | Flush

  /** What the overloads of the source accept. */
  predicate WellTyped(r: Request)
  {
    match r
    case ScalarRequest(_, t, v) => (v.Integer? || v.Truth? || v.Decimal?) && Typed(t, ScalarDeep(v))
    case IntegersRequest(_, t, values) => Typed(t, DeepIntegers(values))
    case _ => true
  }

  /** What a call is to do when no secure copy fails. */
  function CallOf(r: Request, limit: Length): Call
    requires WellTyped(r)
  {
    match r
    case ScalarRequest(key, t, v) => Insert(Field(ShortName(key, limit), t, ScalarDeep(v)), false)
    case StringRequest(key, value) =>
      if value == None then Skip
      else Insert(Field(ShortName(key, limit), TagString, DeepString(CStr(value.value))), false)
    case IntegersRequest(key, t, values) => Insert(Field(ShortName(key, limit), t, DeepIntegers(values)), false)
    case TruthsRequest(key, values) => Insert(Field(ShortName(key, limit), TagBoolArray, DeepTruths(values)), false)
    case StringsRequest(key, values) => Insert(Field(ShortName(key, limit), TagStringArray, DeepStrings(values)), false)
    case _ => Flush
  }

  function CallsOf(rs: seq<Request>, limit: Length): (r: seq<Call>)
    requires forall i :: 0 <= i < |rs| ==> WellTyped(rs[i])
    ensures |r| == |rs|
  {
    seq(|rs|, i requires 0 <= i < |rs| => CallOf(rs[i], limit))
  }

  /** Failing copies change no more than the name of a field, or whether it is inserted. */
  predicate Answers(call: Call, r: Request)
    requires WellTyped(r)
  {
    var due := CallOf(r, 1);
    if due.Insert? then call.Insert? && call.field.deep == due.field.deep && call.field.t == due.field.t
    else call == due
  }

  predicate StandsFor(r: Request, t: Tag, deep: Deep)
    requires WellTyped(r)
  {
    match r
    case ScalarRequest(_, rt, v) => t == rt && deep == ScalarDeep(v)
    case StringRequest(_, value) => value.Some? && t == TagString && deep == DeepString(CStr(value.value))
    case IntegersRequest(_, rt, values) => t == rt && deep == DeepIntegers(values)
    case TruthsRequest(_, values) => t == TagBoolArray && deep == DeepTruths(values)
    case StringsRequest(_, values) => t == TagStringArray && deep == DeepStrings(values)
    case _ => false
  }

  /** Requests that insert something. */
  predicate Inserts(r: Request)
  {
    !r.WriteRequest? && !r.ClearRequest? && (r.StringRequest? ==> r.value.Some?)
  }

  /** The field that a request asks for, spelt out. */
  predicate Asks(r: Request, f: Field, limit: Length)
    requires Inserts(r)
  {
    && Abbreviates(f.name, r.key, limit)
    && match r
       case ScalarRequest(_, t, Integer(n)) => f.t == t && f.deep == DeepInteger(n)
       case ScalarRequest(_, t, Truth(b)) => f.t == t && f.deep == DeepTruth(b)
       case ScalarRequest(_, t, Decimal(x)) => f.t == t && f.deep == DeepDecimal(x)
       case StringRequest(_, value) => f.t == TagString && f.deep.DeepString? && FirstPart(f.deep.s, value.value)
       case IntegersRequest(_, t, values) => f.t == t && f.deep == DeepIntegers(values)
       case TruthsRequest(_, values) => f.t == TagBoolArray && f.deep == DeepTruths(values)
       case StringsRequest(_, values) => f.t == TagStringArray && f.deep == DeepStrings(values)
       case _ => false
  }

  /** What a call does when nothing fails. */
  lemma CallOfIs(r: Request, limit: Length)
    requires WellTyped(r)
    ensures Inserts(r) ==>
      var call := CallOf(r, limit); call.Insert? && !call.cancelled && Asks(r, call.field, limit)
    ensures !Inserts(r) ==> CallOf(r, limit) == if r.StringRequest? then Skip else Flush
  {
    hide Abbreviates, ShortName, CStr;
    if Inserts(r) { ShortNameIs(r.key, limit); }
    if r.StringRequest? && r.value.Some? { CStrIs(r.value.value); }
  }

  lemma DueInsert(call: Call, r: Request, limit: Length, t: Tag, deep: Deep)
    requires WellTyped(r) && StandsFor(r, t, deep)
    requires call.Insert? && call.field.deep == deep && call.field.t == t
    ensures Answers(call, r) && CallOf(r, limit) == Insert(Field(ShortName(r.key, limit), t, deep), false)
  {
    hide ShortName, CStr, Typed;
  }

  lemma NullIsSkipped(r: Request, limit: Length)
    requires r.StringRequest? && r.value == None
    ensures Answers(Skip, r) && CallOf(r, limit) == Skip
  {
  }

  function Apply(contents: seq<Field>, call: Call): seq<Field>
  {
    match call
    case Insert(f, cancelled) => if |contents| >= MAX_PARAM_COUNT || cancelled then contents else contents + [f]
    case Skip => contents
    case Flush => []
  }

  function Run(contents: seq<Field>, calls: seq<Call>): seq<Field>
    decreases calls
  {
    if calls == [] then contents else Run(Apply(contents, calls[0]), calls[1..])
  }

  lemma SkipKeeps(contents: seq<Field>)
    ensures Apply(contents, Skip) == contents
  {
  }

  lemma FlushEmpties(contents: seq<Field>)
    ensures Apply(contents, Flush) == []
  {
  }

  lemma {:induction false} RunOneMore(contents: seq<Field>, calls: seq<Call>, call: Call)
    ensures Run(contents, calls + [call]) == Apply(Run(contents, calls), call)
    decreases calls
  {
    hide Apply;
    if calls == [] {
      assert [] + [call] == [call] && [call][1..] == [];
    } else {
      assert (calls + [call])[1..] == calls[1..] + [call];
      RunOneMore(Apply(contents, calls[0]), calls[1..], call);
    }
  }

  /** Up to the next flush, what is there stays, and the cap holds. */
  lemma {:induction false} RunKeepsEarlierFields(contents: seq<Field>, calls: seq<Call>)
    requires |contents| <= MAX_PARAM_COUNT
    ensures |Run(contents, calls)| <= MAX_PARAM_COUNT
    ensures Flush !in calls ==> contents <= Run(contents, calls)
    decreases calls
  {
    if calls == [] {
    } else {
      RunKeepsEarlierFields(Apply(contents, calls[0]), calls[1..]);
      assert calls[0] in calls && forall c :: c in calls[1..] ==> c in calls;
    }
  }

  predicate AllInserted(calls: seq<Call>) { forall i :: 0 <= i < |calls| ==> calls[i].Insert? && !calls[i].cancelled }

  function FieldsOf(calls: seq<Call>): (r: seq<Field>)
    requires AllInserted(calls)
    ensures |r| == |calls|
  {
    seq(|calls|, i requires 0 <= i < |calls| => calls[i].field)
  }

  function Capped(all: seq<Field>): seq<Field>
  {
    if |all| <= MAX_PARAM_COUNT then all else all[..MAX_PARAM_COUNT]
  }

  lemma CappedStep(contents: seq<Field>, f: Field, rest: seq<Field>)
    requires |contents| <= MAX_PARAM_COUNT
    ensures |Apply(contents, Insert(f, false))| <= MAX_PARAM_COUNT
    ensures Capped(Apply(contents, Insert(f, false)) + rest) == Capped(contents + ([f] + rest))
  {
    assert (contents + [f]) + rest == contents + ([f] + rest);
  }

  /** When no copy fails, exactly the first 64 inserts survive, in order. */
  lemma {:induction false} FirstInsertsSurvive(contents: seq<Field>, calls: seq<Call>)
    requires |contents| <= MAX_PARAM_COUNT && AllInserted(calls)
    ensures Run(contents, calls) == Capped(contents + FieldsOf(calls))
    decreases calls
  {
    hide Apply;
    if calls == [] {
      assert contents + FieldsOf(calls) == contents;
    } else {
      var f := calls[0].field;
      assert FieldsOf(calls) == [f] + FieldsOf(calls[1..]);
      CappedStep(contents, f, FieldsOf(calls[1..]));
      FirstInsertsSurvive(Apply(contents, calls[0]), calls[1..]);
    }
  }

  /** A run of inserts on an empty builder. */
  method InsertAll(builder: FormHiSysEventBuilder, rs: seq<Request>)
    requires builder.Valid() && builder.Contents == [] && !builder.faulted
    requires forall i :: 0 <= i < |rs| ==> WellTyped(rs[i]) && Inserts(rs[i])
    modifies builder
    ensures builder.Valid()
    ensures !builder.faulted ==>
      AllInserted(CallsOf(rs, builder.nameLimit))
      && builder.Contents == Capped(FieldsOf(CallsOf(rs, builder.nameLimit)))
    ensures !builder.faulted ==>
      && |builder.Contents| == (if |rs| <= 64 then |rs| else 64)
      && forall i :: 0 <= i < |builder.Contents| ==> Asks(rs[i], builder.Contents[i], builder.nameLimit)
  {
    hide Asks;
    forall i | 0 <= i < |rs|
      ensures var call := CallOf(rs[i], builder.nameLimit);
              call.Insert? && !call.cancelled && Asks(rs[i], call.field, builder.nameLimit)
    {
      CallOfIs(rs[i], builder.nameLimit);
    }
    ghost var calls := builder.PerformAll(rs);
    if !builder.faulted {
      FirstInsertsSurvive([], calls);
      assert [] + FieldsOf(calls) == FieldsOf(calls);
    }
  }
}
