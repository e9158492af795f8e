/** JSON values, the RFC 8259 grammar as concrete syntax trees, and the compact printer.
    A string holds bytes, one `char` per byte. */
module JsonValues {
  import opened SortedMaps

  // Objects are std::map in nlohmann::json; a number is identified by its token.
  datatype Json =
    | Null
    | Bool(b: bool)
    | Num(token: string)
    | Str(text: string)
    | Arr(elems: seq<Json>)
    | Obj(members: seq<Entry<Json>>)

  function Max(a: nat, b: nat): nat { if a < b then b else a }

  /** Number of containers open at the deepest point of a value. */
  function Nesting(j: Json): nat
    decreases j, 0
  {
    match j
    case Arr(es) => 1 + NestingElems(es)
    case Obj(ms) => 1 + NestingMembers(ms)
    case _ => 0
  }

  function NestingElems(es: seq<Json>): nat
    decreases es, 1
  {
    if es == [] then 0 else Max(Nesting(es[0]), NestingElems(es[1..]))
  }

  function NestingMembers(ms: seq<Entry<Json>>): nat
    decreases ms, 1
  {
    if ms == [] then 0 else Max(Nesting(ms[0].val), NestingMembers(ms[1..]))
  }

  /** nlohmann's `empty()`: null and containers without elements, never a scalar. */
  predicate IsEmpty(j: Json)
  {
    match j
    case Null => true
    case Arr(es) => es == []
    case Obj(ms) => ms == []
    case _ => false
  }

  // ---- numbers (RFC 8259 section 6) as a deterministic automaton ----

  datatype NumPhase = Minus | Zero | Digits | Point | Fraction | Exponent | ExpSign | ExpDigits

  predicate IsDigit(c: char) { '0' <= c <= '9' }

  function NumStart(c: char): Option<NumPhase>
  {
    if c == '-' then Some(Minus) else if c == '0' then Some(Zero) else if IsDigit(c) then Some(Digits) else None
  }

  function NumNext(p: NumPhase, c: char): Option<NumPhase>
  {
    match p
    case Minus => if c == '0' then Some(Zero) else if IsDigit(c) then Some(Digits) else None
    case Zero => if c == '.' then Some(Point) else if c == 'e' || c == 'E' then Some(Exponent) else None
    case Digits =>
      if IsDigit(c) then Some(Digits) else if c == '.' then Some(Point)
      else if c == 'e' || c == 'E' then Some(Exponent) else None
    case Point => if IsDigit(c) then Some(Fraction) else None
    case Fraction => if IsDigit(c) then Some(Fraction) else if c == 'e' || c == 'E' then Some(Exponent) else None
    case Exponent => if c == '+' || c == '-' then Some(ExpSign) else if IsDigit(c) then Some(ExpDigits) else None
    case ExpSign => if IsDigit(c) then Some(ExpDigits) else None
    case ExpDigits => if IsDigit(c) then Some(ExpDigits) else None
  }

  predicate NumFinal(p: NumPhase) { p in {Zero, Digits, Fraction, ExpDigits} }

  function NumRun(p: NumPhase, s: string): Option<NumPhase>
    decreases s
  {
    if s == "" then Some(p)
    else match NumNext(p, s[0]) case None => None case Some(q) => NumRun(q, s[1..])
  }

  function NumTokenPhase(tok: string): Option<NumPhase>
  {
    if tok == "" then None
    else match NumStart(tok[0]) case None => None case Some(p) => NumRun(p, tok[1..])
  }

  predicate ValidNumber(tok: string)
  {
    NumTokenPhase(tok).Some? && NumFinal(NumTokenPhase(tok).value)
  }

  // ---- strings (RFC 8259 section 7) ----

  // One unit of a string literal: an unescaped byte, a two-character escape or \uXXXX.
  datatype Piece = Raw(c: char) | Short(e: char) | Unicode(digits: string)

  predicate IsShortEscape(c: char) { c in {'"', '\\', '/', 'b', 'f', 'n', 'r', 't'} }

  function Unescape(c: char): char
  {
    match c
    case 'b' => 8 as char
    case 'f' => 12 as char
    case 'n' => '\n'
    case 'r' => '\r'
    case 't' => '\t'
    case _ => c
  }

  predicate IsHex(c: char) { IsDigit(c) || 'a' <= c <= 'f' || 'A' <= c <= 'F' }

  function HexDigit(c: char): nat
    requires IsHex(c)
  {
    if IsDigit(c) then c as int - '0' as int
    else if 'a' <= c then c as int - 'a' as int + 10
    else c as int - 'A' as int + 10
  }

  predicate FourHex(d: string) { |d| == 4 && forall i :: 0 <= i < 4 ==> IsHex(d[i]) }

  function HexValue(d: string): nat
    requires FourHex(d)
  {
    ((HexDigit(d[0]) * 16 + HexDigit(d[1])) * 16 + HexDigit(d[2])) * 16 + HexDigit(d[3])
  }

  predicate HighSurrogate(u: nat) { 0xD800 <= u <= 0xDBFF }
  predicate LowSurrogate(u: nat) { 0xDC00 <= u <= 0xDFFF }

  function Byte(n: nat): char { (n % 256) as char }

  function Utf8(u: nat): string
  {
    if u < 0x80 then [Byte(u)]
    else if u < 0x800 then [Byte(0xC0 + u / 64), Byte(0x80 + u % 64)]
    else if u < 0x1_0000 then [Byte(0xE0 + u / 4096), Byte(0x80 + u / 64 % 64), Byte(0x80 + u % 64)]
    else [Byte(0xF0 + u / 262144), Byte(0x80 + u / 4096 % 64), Byte(0x80 + u / 64 % 64), Byte(0x80 + u % 64)]
  }

  function Utf8Pair(high: nat, low: nat): string
    requires HighSurrogate(high) && LowSurrogate(low)
  {
    Utf8(0x1_0000 + (high - 0xD800) * 1024 + (low - 0xDC00))
  }

  predicate ValidPiece(p: Piece)
  {
    match p
    case Raw(c) => ' ' <= c && c != '"' && c != '\\'
    case Short(e) => IsShortEscape(e)
    case Unicode(d) => FourHex(d)
  }

  predicate ValidPieces(ps: seq<Piece>) { forall p :: p in ps ==> ValidPiece(p) }

  function PieceText(p: Piece): string
  {
    match p
    case Raw(c) => [c]
    case Short(e) => ['\\', e]
    case Unicode(d) => ['\\', 'u'] + d
  }

  function PiecesText(ps: seq<Piece>): string
  {
    if ps == [] then "" else PieceText(ps[0]) + PiecesText(ps[1..])
  }

  /** The bytes a string literal denotes; None when a surrogate is not paired. */
  function Decode(ps: seq<Piece>): Option<string>
    requires ValidPieces(ps)
    decreases |ps|
  {
    if ps == [] then Some("")
    else match ps[0]
      case Raw(c) => Prepend([c], Decode(ps[1..]))
      case Short(e) => Prepend([Unescape(e)], Decode(ps[1..]))
      case Unicode(d) =>
        assert ps[0] in ps;
        var u := HexValue(d);
        if HighSurrogate(u) then
          if |ps| > 1 && ps[1].Unicode? && (assert ps[1] in ps; LowSurrogate(HexValue(ps[1].digits)))
          then Prepend(Utf8Pair(u, HexValue(ps[1].digits)), Decode(ps[2..]))
          else None
        else if LowSurrogate(u) then None
        else Prepend(Utf8(u), Decode(ps[1..]))
  }

  function Prepend(s: string, r: Option<string>): Option<string>
  {
    match r case None => None case Some(t) => Some(s + t)
  }

  // ---- values (RFC 8259 sections 2 to 5) ----

  datatype Word = NullWord | TrueWord | FalseWord

  datatype Tree =
    | Literal(word: Word)
    | Number(token: string)
    | String(pieces: seq<Piece>)
    | Array(gap: string, items: seq<Item>)
    | Object(gap: string, props: seq<Prop>)

  datatype Item = Item(before: string, tree: Tree, after: string)

  datatype Prop = Prop(before: string, key: seq<Piece>, beforeColon: string, item: Item)

  predicate IsSpace(c: char) { c == ' ' || c == '\t' || c == '\n' || c == '\r' }

  predicate Spaces(s: string) { forall i :: 0 <= i < |s| ==> IsSpace(s[i]) }

  function WordText(w: Word): string
  {
    match w case NullWord => "null" case TrueWord => "true" case FalseWord => "false"
  }

  function WordValue(w: Word): Json
  {
    match w case NullWord => Null case TrueWord => Bool(true) case FalseWord => Bool(false)
  }

  function Text(t: Tree): string
    decreases t, 0
  {
    match t
    case Literal(w) => WordText(w)
    case Number(tok) => tok
    case String(ps) => "\"" + (PiecesText(ps) + "\"")
    case Array(gap, items) => "[" + (if items == [] then gap + "]" else ItemsText(items))
    case Object(gap, props) => "{" + (if props == [] then gap + "}" else PropsText(props))
  }

  function ItemsText(items: seq<Item>): string
    requires items != []
    decreases items, 2
  {
    var i := items[0];
    i.before + (Text(i.tree) + (i.after + (if |items| == 1 then "]" else "," + ItemsText(items[1..]))))
  }

  function PropsText(props: seq<Prop>): string
    requires props != []
    decreases props, 2
  {
    var p := props[0];
    p.before + ("\"" + (PiecesText(p.key) + ("\"" + (p.beforeColon + (":" + (p.item.before
    + (Text(p.item.tree) + (p.item.after + (if |props| == 1 then "}" else "," + PropsText(props[1..]))))))))))
  }

  predicate WellFormed(t: Tree)
    decreases t, 0
  {
    match t
    case Literal(_) => true
    case Number(tok) => ValidNumber(tok)
    case String(ps) => ValidPieces(ps)
    case Array(gap, items) => Spaces(gap) && WellFormedItems(items)
    case Object(gap, props) => Spaces(gap) && WellFormedProps(props)
  }

  predicate WellFormedItems(items: seq<Item>)
    decreases items, 2
  {
    items != [] ==>
      && Spaces(items[0].before) && Spaces(items[0].after)
      && WellFormed(items[0].tree) && WellFormedItems(items[1..])
  }

  predicate WellFormedProps(props: seq<Prop>)
    decreases props, 2
  {
    props != [] ==>
      && Spaces(props[0].before) && ValidPieces(props[0].key) && Spaces(props[0].beforeColon)
      && Spaces(props[0].item.before) && Spaces(props[0].item.after)
      && WellFormed(props[0].item.tree) && WellFormedProps(props[1..])
  }

  /** Containers open at the deepest point of a text, counting overridden members too. */
  function Depth(t: Tree): nat
    decreases t, 0
  {
    match t
    case Array(_, items) => 1 + DepthItems(items)
    case Object(_, props) => 1 + DepthProps(props)
    case _ => 0
  }

  function DepthItems(items: seq<Item>): nat
    decreases items, 2
  {
    if items == [] then 0 else Max(Depth(items[0].tree), DepthItems(items[1..]))
  }

  function DepthProps(props: seq<Prop>): nat
    decreases props, 2
  {
    if props == [] then 0 else Max(Depth(props[0].item.tree), DepthProps(props[1..]))
  }

  /** Every string of the text has only paired surrogates. */
  predicate Legible(t: Tree)
    requires WellFormed(t)
    decreases t, 0
  {
    match t
    case String(ps) => Decode(ps).Some?
    case Array(_, items) => LegibleItems(items)
    case Object(_, props) => LegibleProps(props)
    case _ => true
  }

  predicate LegibleItems(items: seq<Item>)
    requires WellFormedItems(items)
    decreases items, 2
  {
    items != [] ==> Legible(items[0].tree) && LegibleItems(items[1..])
  }

  predicate LegibleProps(props: seq<Prop>)
    requires WellFormedProps(props)
    decreases props, 2
  {
    props != [] ==> Decode(props[0].key).Some? && Legible(props[0].item.tree) && LegibleProps(props[1..])
  }

  /** The value a text denotes; a repeated member name keeps its last value. */
  function Value(t: Tree): Json
    requires WellFormed(t) && Legible(t)
    decreases t, 0
  {
    match t
    case Literal(w) => WordValue(w)
    case Number(tok) => Num(tok)
    case String(ps) => Str(Decode(ps).value)
    case Array(_, items) => Arr(ItemValues([], items))
    case Object(_, props) => Obj(PropValues([], props))
  }

  function ItemValues(done: seq<Json>, items: seq<Item>): seq<Json>
    requires WellFormedItems(items) && LegibleItems(items)
    decreases items, 2
  {
    if items == [] then done else ItemValues(done + [Value(items[0].tree)], items[1..])
  }

  function PropValues(done: seq<Entry<Json>>, props: seq<Prop>): seq<Entry<Json>>
    requires WellFormedProps(props) && LegibleProps(props)
    decreases props, 2
  {
    if props == [] then done
    else PropValues(Put(done, Decode(props[0].key).value, Value(props[0].item.tree)), props[1..])
  }

  // ---- the compact printer, nlohmann's dump() ----

  function LowerHex(n: nat): char
    requires n < 16
  {
    if n < 10 then (n + '0' as int) as char else (n - 10 + 'a' as int) as char
  }

  function EscapeByte(c: char): Piece
  {
    if c == '"' || c == '\\' then Short(c)
    else if c == 8 as char then Short('b')
    else if c == 12 as char then Short('f')
    else if c == '\n' then Short('n')
    else if c == '\r' then Short('r')
    else if c == '\t' then Short('t')
    else if c < ' ' then Unicode("00" + [LowerHex(c as int / 16), LowerHex(c as int % 16)])
    else Raw(c)
  }

  function Escape(s: string): seq<Piece>
  {
    if s == "" then [] else [EscapeByte(s[0])] + Escape(s[1..])
  }

  function Compact(j: Json): Tree
    decreases j, 0
  {
    match j
    case Null => Literal(NullWord)
    case Bool(b) => Literal(if b then TrueWord else FalseWord)
    case Num(tok) => Number(tok)
    case Str(s) => String(Escape(s))
    case Arr(es) => Array("", CompactItems(es))
    case Obj(ms) => Object("", CompactProps(ms))
  }

  function CompactItems(es: seq<Json>): seq<Item>
    decreases es, 1
  {
    if es == [] then [] else [Item("", Compact(es[0]), "")] + CompactItems(es[1..])
  }

  function CompactProps(ms: seq<Entry<Json>>): seq<Prop>
    decreases ms, 1
  {
    if ms == [] then []
    else [Prop("", Escape(ms[0].key), "", Item("", Compact(ms[0].val), ""))] + CompactProps(ms[1..])
  }

  function Dump(j: Json): string { Text(Compact(j)) }

  /** Values that nlohmann::json can hold: number tokens are numbers, objects are maps. */
  ghost predicate Canonical(j: Json)
  {
    match j
    case Num(tok) => ValidNumber(tok)
    case Arr(es) => forall e :: e in es ==> Canonical(e)
    case Obj(ms) => Sorted(ms) && forall m :: m in ms ==> Canonical(m.val)
    case _ => true
  }

  lemma EscapeByteDecodes(c: char)
    ensures ValidPiece(EscapeByte(c))
    ensures Decode([EscapeByte(c)]) == Some([c])
  {
    var p := EscapeByte(c);
    assert [p][1..] == [] && [c] + "" == [c];
    if p.Unicode? {
      var hi, lo := c as int / 16, c as int % 16;
      assert HexDigit(LowerHex(hi)) == hi && HexDigit(LowerHex(lo)) == lo;
      var d := "00" + [LowerHex(hi), LowerHex(lo)];
      assert d[0] == '0' && d[1] == '0' && d[2] == LowerHex(hi) && d[3] == LowerHex(lo);
      assert HexValue(d) == c as int;
      assert p == Unicode(d);
    }
    assert Decode([p]) == Prepend([c], Decode([p][1..]));
  }

  lemma {:induction false} EscapeDecodes(s: string)
    ensures ValidPieces(Escape(s))
    ensures Decode(Escape(s)) == Some(s)
  {
    if s == "" {
    } else {
      EscapeByteDecodes(s[0]);
      EscapeDecodes(s[1..]);
      var p := EscapeByte(s[0]);
      var ps := [p] + Escape(s[1..]);
      assert ps[1..] == Escape(s[1..]);
      assert [p][1..] == [];
      assert [s[0]] + s[1..] == s;
    }
  }

  /** Printing loses nothing: the compact text of a value denotes that value. */
  lemma {:induction false} CompactDenotes(j: Json)
    requires Canonical(j)
    ensures WellFormed(Compact(j)) && Legible(Compact(j)) && Value(Compact(j)) == j
    ensures Depth(Compact(j)) == Nesting(j)
    decreases j, 0
  {
    match j {
      case Str(s) => EscapeDecodes(s);
      case Arr(es) => CompactItemsDenote([], es);
      case Obj(ms) =>
        CompactPropsDenote([], ms);
        PutAllAscending([], ms);
        assert [] + ms == ms;
      case _ =>
    }
  }

  lemma {:induction false} CompactItemsDenote(done: seq<Json>, es: seq<Json>)
    requires forall e :: e in es ==> Canonical(e)
    ensures WellFormedItems(CompactItems(es)) && LegibleItems(CompactItems(es))
    ensures ItemValues(done, CompactItems(es)) == done + es
    ensures DepthItems(CompactItems(es)) == NestingElems(es)
    decreases es, 1
  {
    hide Compact, WellFormed, Legible, Value, Depth, Nesting, Canonical;
    if es == [] {
      assert CompactItems(es) == [] && done + es == done;
    } else {
      var items := CompactItems(es);
      CompactDenotes(es[0]);
      CompactItemsDenote(done + [es[0]], es[1..]);
      assert items[0] == Item("", Compact(es[0]), "") && items[1..] == CompactItems(es[1..]);
      assert done + [es[0]] + es[1..] == done + es;
    }
  }

  lemma {:induction false} CompactPropsDenote(done: seq<Entry<Json>>, ms: seq<Entry<Json>>)
    requires forall m :: m in ms ==> Canonical(m.val)
    ensures WellFormedProps(CompactProps(ms)) && LegibleProps(CompactProps(ms))
    ensures PropValues(done, CompactProps(ms)) == PutAll(done, ms)
    ensures DepthProps(CompactProps(ms)) == NestingMembers(ms)
    decreases ms, 1
  {
    hide Compact, WellFormed, Legible, Value, Depth, Nesting, Canonical, Decode, Escape, Put;
    if ms == [] {
    } else {
      EscapeDecodes(ms[0].key);
      CompactDenotes(ms[0].val);
      CompactPropsDenote(Put(done, ms[0].key, ms[0].val), ms[1..]);
      assert CompactProps(ms)[1..] == CompactProps(ms[1..]);
    }
  }

  lemma {:induction false} NestingElemsBound(es: seq<Json>, n: nat)
    ensures NestingElems(es) <= n <==> forall i :: 0 <= i < |es| ==> Nesting(es[i]) <= n
  {
    if es == [] {
    } else {
      NestingElemsBound(es[1..], n);
      if NestingElems(es) <= n {
        forall i | 0 <= i < |es| ensures Nesting(es[i]) <= n {
          if i > 0 { assert es[i] == es[1..][i - 1]; }
        }
      }
    }
  }

  lemma {:induction false} NestingMembersBound(ms: seq<Entry<Json>>, n: nat)
    ensures NestingMembers(ms) <= n <==> forall i :: 0 <= i < |ms| ==> Nesting(ms[i].val) <= n
  {
    if ms == [] {
    } else {
      NestingMembersBound(ms[1..], n);
      if NestingMembers(ms) <= n {
        forall i | 0 <= i < |ms| ensures Nesting(ms[i].val) <= n {
          if i > 0 { assert ms[i] == ms[1..][i - 1]; }
        }
      }
    }
  }
}
