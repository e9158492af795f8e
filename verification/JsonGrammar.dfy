/** The reference parser accepts nothing but RFC 8259 texts. A partial derivation of the bytes
    read so far goes along with each of its states. */
module JsonGrammar {
  import opened SortedMaps
  import opened JsonValues
  import opened JsonParser
  import opened JsonDepth

  // ---- lists of items and members that are still open: their text, given what follows ----

  function ItemThen(i: Item, tail: string): string { i.before + (Text(i.tree) + (i.after + tail)) }

  function KeyThen(before: string, key: seq<Piece>, beforeColon: string, tail: string): string
  {
    before + ("\"" + (PiecesText(key) + ("\"" + (beforeColon + (":" + tail)))))
  }

  function ItemsThen(items: seq<Item>, tail: string): string
  {
    if items == [] then tail else ItemThen(items[0], "," + ItemsThen(items[1..], tail))
  }

  function PropsThen(props: seq<Prop>, tail: string): string
  {
    if props == [] then tail
    else
      var p := props[0];
      KeyThen(p.before, p.key, p.beforeColon, ItemThen(p.item, "," + PropsThen(props[1..], tail)))
  }

  predicate GoodItem(i: Item)
  {
    Spaces(i.before) && Spaces(i.after) && WellFormed(i.tree) && Legible(i.tree)
  }

  predicate GoodKey(before: string, key: seq<Piece>, beforeColon: string)
  {
    Spaces(before) && ValidPieces(key) && Decode(key).Some? && Spaces(beforeColon)
  }

  predicate GoodItems(items: seq<Item>) { WellFormedItems(items) && LegibleItems(items) }

  predicate GoodProps(props: seq<Prop>) { WellFormedProps(props) && LegibleProps(props) }

  predicate GoodProp(p: Prop) { GoodKey(p.before, p.key, p.beforeColon) && GoodItem(p.item) }

  lemma {:induction false} ItemsAppend(items: seq<Item>, i: Item, done: seq<Json>)
    requires GoodItems(items) && GoodItem(i)
    ensures GoodItems(items + [i])
    ensures ItemValues(done, items + [i]) == ItemValues(done, items) + [Value(i.tree)]
    decreases |items|
  {
    var all := items + [i];
    if items == [] {
      assert all[0] == i && all[1..] == [];
    } else {
      assert all[0] == items[0] && all[1..] == items[1..] + [i];
      ItemsAppend(items[1..], i, done + [Value(items[0].tree)]);
    }
  }

  lemma {:induction false} ItemsTextAppend(items: seq<Item>, i: Item, tail: string)
    ensures ItemsText(items + [i]) == ItemsThen(items, ItemThen(i, "]"))
    ensures ItemsThen(items + [i], tail) == ItemsThen(items, ItemThen(i, "," + tail))
    decreases |items|
  {
    var all := items + [i];
    if items == [] {
      assert all[0] == i && all[1..] == [];
    } else {
      assert all[0] == items[0] && all[1..] == items[1..] + [i];
      ItemsTextAppend(items[1..], i, tail);
    }
  }

  lemma {:induction false} PropsAppend(props: seq<Prop>, p: Prop, done: seq<Entry<Json>>)
    requires GoodProps(props) && GoodProp(p)
    ensures GoodProps(props + [p])
    ensures PropValues(done, props + [p]) == Put(PropValues(done, props), Decode(p.key).value, Value(p.item.tree))
    decreases |props|
  {
    hide Put;
    var all := props + [p];
    if props == [] {
      assert all[0] == p && all[1..] == [];
    } else {
      assert all[0] == props[0] && all[1..] == props[1..] + [p];
      PropsAppend(props[1..], p, Put(done, Decode(props[0].key).value, Value(props[0].item.tree)));
    }
  }

  lemma {:induction false} PropsTextAppend(props: seq<Prop>, p: Prop, tail: string)
    ensures PropsText(props + [p]) == PropsThen(props, KeyThen(p.before, p.key, p.beforeColon, ItemThen(p.item, "}")))
    ensures PropsThen(props + [p], tail)
         == PropsThen(props, KeyThen(p.before, p.key, p.beforeColon, ItemThen(p.item, "," + tail)))
    decreases |props|
  {
    hide PiecesText, Text;
    var all := props + [p];
    if props == [] {
      assert all[0] == p && all[1..] == [];
    } else {
      assert all[0] == props[0] && all[1..] == props[1..] + [p];
      PropsTextAppend(props[1..], p, tail);
    }
  }

  lemma Concat3(a: string, b: string, c: string)
    ensures a + (b + c) == (a + b) + c
  {
  }

  lemma ItemThenMore(i: Item, a: string, b: string)
    ensures ItemThen(i, a + b) == ItemThen(i, a) + b
  {
  }

  lemma KeyThenMore(before: string, key: seq<Piece>, beforeColon: string, a: string, b: string)
    ensures KeyThen(before, key, beforeColon, a + b) == KeyThen(before, key, beforeColon, a) + b
  {
  }

  lemma {:induction false} ItemsThenMore(items: seq<Item>, a: string, b: string)
    ensures ItemsThen(items, a + b) == ItemsThen(items, a) + b
  {
    hide ItemThen;
    if items == [] {
    } else {
      ItemsThenMore(items[1..], a, b);
      Concat3(",", ItemsThen(items[1..], a), b);
      ItemThenMore(items[0], "," + ItemsThen(items[1..], a), b);
    }
  }

  lemma {:induction false} PropsThenMore(props: seq<Prop>, a: string, b: string)
    ensures PropsThen(props, a + b) == PropsThen(props, a) + b
  {
    hide ItemThen, KeyThen;
    if props == [] {
    } else {
      var p := props[0];
      var t := "," + PropsThen(props[1..], a);
      PropsThenMore(props[1..], a, b);
      Concat3(",", PropsThen(props[1..], a), b);
      ItemThenMore(p.item, t, b);
      KeyThenMore(p.before, p.key, p.beforeColon, ItemThen(p.item, t), b);
    }
  }

  lemma {:induction false} DecodeAppend(a: seq<Piece>, b: seq<Piece>)
    requires ValidPieces(a) && ValidPieces(b) && Decode(a).Some? && Decode(b).Some?
    ensures ValidPieces(a + b) && Decode(a + b) == Some(Decode(a).value + Decode(b).value)
    decreases |a|
  {
    hide Decode, HexValue, HighSurrogate, LowSurrogate, Utf8Pair;
    if a == [] {
      DecodeNone();
      assert a + b == b && "" + Decode(b).value == Decode(b).value;
    } else if a[0].Unicode? && ValidPiece(a[0]) && HighSurrogate(HexValue(a[0].digits)) {
      DecodePair(a);
      DecodeAppend(a[2..], b);
      DecodeFirstTwo(a[0], a[1], a[2..] + b);
      assert [a[0], a[1]] + (a[2..] + b) == a + b;
      Concat3(Utf8Pair(HexValue(a[0].digits), HexValue(a[1].digits)), Decode(a[2..]).value, Decode(b).value);
    } else {
      assert a[0] in a;
      DecodeOne(a);
      DecodeAppend(a[1..], b);
      DecodeFirst(a[0], a[1..] + b);
      assert [a[0]] + (a[1..] + b) == a + b;
      Concat3(Decode([a[0]]).value, Decode(a[1..]).value, Decode(b).value);
    }
  }

  lemma DecodeNone()
    ensures Decode([]) == Some("")
  {
  }

  lemma DecodeFirstTwo(p: Piece, q: Piece, rest: seq<Piece>)
    requires p.Unicode? && ValidPiece(p) && HighSurrogate(HexValue(p.digits))
    requires q.Unicode? && ValidPiece(q) && LowSurrogate(HexValue(q.digits))
    requires ValidPieces(rest) && Decode(rest).Some?
    ensures ValidPieces([p, q] + rest)
    ensures Decode([p, q] + rest) == Some(Utf8Pair(HexValue(p.digits), HexValue(q.digits)) + Decode(rest).value)
  {
  }

  lemma DecodeFirst(p: Piece, rest: seq<Piece>)
    requires ValidPiece(p) && Decode([p]).Some? && ValidPieces(rest) && Decode(rest).Some?
    ensures ValidPieces([p] + rest) && Decode([p] + rest) == Some(Decode([p]).value + Decode(rest).value)
  {
    assert ([p] + rest)[1..] == rest && [p][1..] == [];
    assert forall s: string :: s + "" == s;
  }

  lemma {:induction false} PiecesTextAppend(a: seq<Piece>, b: seq<Piece>)
    ensures PiecesText(a + b) == PiecesText(a) + PiecesText(b)
    decreases |a|
  {
    if a == [] {
      assert a + b == b;
    } else {
      assert (a + b)[1..] == a[1..] + b;
      PiecesTextAppend(a[1..], b);
      Concat3(PieceText(a[0]), PiecesText(a[1..]), PiecesText(b));
    }
  }

  // ---- partial derivations ----

  // The containers around the place where a value is expected or being read, each with what it
  // holds so far and the space (and member name) in front of that value.
  datatype Spine =
    | Root(gap: string)
    | InList(items: seq<Item>, gap: string, below: Spine)
    | InRecord(props: seq<Prop>, before: string, key: seq<Piece>, beforeColon: string, gap: string, below: Spine)

  predicate GoodSpine(sp: Spine)
  {
    match sp
    case Root(gap) => Spaces(gap)
    case InList(items, gap, below) => GoodItems(items) && Spaces(gap) && GoodSpine(below)
    case InRecord(props, before, key, beforeColon, gap, below) =>
      GoodProps(props) && GoodKey(before, key, beforeColon) && Spaces(gap) && GoodSpine(below)
  }

  function StackOf(sp: Spine): Stack
    requires GoodSpine(sp)
  {
    match sp
    case Root(_) => Bottom
    case InList(items, _, below) => Push(InArray(ItemValues([], items)), StackOf(below))
    case InRecord(props, _, key, _, _, below) =>
      Push(InObject(PropValues([], props), Decode(key).value), StackOf(below))
  }

  /** The bytes read so far, when `tail` is what follows the space in front of the value. */
  function Shown(sp: Spine, tail: string): string
  {
    match sp
    case Root(gap) => gap + tail
    case InList(items, gap, below) => Shown(below, "[" + ItemsThen(items, gap + tail))
    case InRecord(props, before, key, beforeColon, gap, below) =>
      Shown(below, "{" + PropsThen(props, KeyThen(before, key, beforeColon, gap + tail)))
  }

  lemma {:induction false} ShownMore(sp: Spine, a: string, b: string)
    ensures Shown(sp, a + b) == Shown(sp, a) + b
    decreases sp
  {
    hide ItemsThen, PropsThen, KeyThen;
    match sp {
      case Root(gap) =>
        Concat3(gap, a, b);
      case InList(items, gap, below) =>
        Concat3(gap, a, b);
        ItemsThenMore(items, gap + a, b);
        Concat3("[", ItemsThen(items, gap + a), b);
        ShownMore(below, "[" + ItemsThen(items, gap + a), b);
      case InRecord(props, before, key, beforeColon, gap, below) =>
        Concat3(gap, a, b);
        var t := KeyThen(before, key, beforeColon, gap + a);
        KeyThenMore(before, key, beforeColon, gap + a, b);
        PropsThenMore(props, t, b);
        Concat3("{", PropsThen(props, t), b);
        ShownMore(below, "{" + PropsThen(props, t), b);
    }
  }

  function AddGap(sp: Spine, c: char): Spine { sp.(gap := sp.gap + [c]) }

  lemma GapMore(sp: Spine, c: char)
    requires GoodSpine(sp) && IsSpace(c)
    ensures GoodSpine(AddGap(sp, c)) && StackOf(AddGap(sp, c)) == StackOf(sp)
    ensures Shown(AddGap(sp, c), "") == Shown(sp, "") + [c]
  {
    ShownMore(sp, "", [c]);
    assert (sp.gap + [c]) + "" == sp.gap + ("" + [c]);
  }

  // Where a string literal is being read: as a value, or as a member name.
  datatype Place = AtValue(spine: Spine) | AtKey(props: seq<Prop>, before: string, below: Spine)

  predicate GoodPlace(p: Place)
  {
    match p
    case AtValue(sp) => GoodSpine(sp)
    case AtKey(props, before, below) => GoodProps(props) && Spaces(before) && GoodSpine(below)
  }

  function PlaceStack(p: Place): Stack
    requires GoodPlace(p)
  {
    match p
    case AtValue(sp) => StackOf(sp)
    case AtKey(props, _, below) => Push(InObject(PropValues([], props), ""), StackOf(below))
  }

  function PlaceShown(p: Place, tail: string): string
  {
    match p
    case AtValue(sp) => Shown(sp, tail)
    case AtKey(props, before, below) => Shown(below, "{" + PropsThen(props, before + tail))
  }

  lemma PlaceShownMore(p: Place, a: string, b: string)
    ensures PlaceShown(p, a + b) == PlaceShown(p, a) + b
  {
    match p {
      case AtValue(sp) => ShownMore(sp, a, b);
      case AtKey(props, before, below) =>
        Concat3(before, a, b);
        PropsThenMore(props, before + a, b);
        Concat3("{", PropsThen(props, before + a), b);
        ShownMore(below, "{" + PropsThen(props, before + a), b);
    }
  }

  // One derivation for every parser state. `pending` holds the digits of a high surrogate that
  // still needs its partner, `part` the beginning of an escape.
  datatype Config =
    | WantsValue(spine: Spine, first: bool)
    | WantsKey(props: seq<Prop>, before: string, below: Spine, first: bool)
    | WantsColon(props: seq<Prop>, before: string, key: seq<Piece>, beforeColon: string, below: Spine)
    | Has(spine: Spine, tree: Tree, after: string)
    | Reads(place: Place, pieces: seq<Piece>, pending: string, part: string)
    | Counts(spine: Spine, token: string)
    | Spells(spine: Spine, word: Word, count: nat)

  predicate GoodPart(part: string)
  {
    part == "" || part == "\\"
    || (2 <= |part| < 6 && part[..2] == "\\u" && forall i :: 2 <= i < |part| ==> IsHex(part[i]))
  }

  predicate GoodPending(pending: string) { pending == "" || (FourHex(pending) && HighSurrogate(HexValue(pending))) }

  predicate Good(c: Config)
  {
    match c
    case WantsValue(sp, first) => GoodSpine(sp) && (first ==> sp.InList? && sp.items == [])
    case WantsKey(props, before, below, first) =>
      GoodProps(props) && Spaces(before) && GoodSpine(below) && (first ==> props == [])
    case WantsColon(props, before, key, beforeColon, below) =>
      GoodProps(props) && GoodKey(before, key, beforeColon) && GoodSpine(below)
    case Has(sp, t, after) => GoodSpine(sp) && WellFormed(t) && Legible(t) && Spaces(after)
    case Reads(place, ps, pending, part) =>
      GoodPlace(place) && ValidPieces(ps) && Decode(ps).Some? && GoodPending(pending) && GoodPart(part)
    case Counts(sp, tok) => GoodSpine(sp) && NumTokenPhase(tok).Some?
    case Spells(sp, w, k) => GoodSpine(sp) && 0 < k < |WordText(w)|
  }

  function HexSoFar(d: string): nat
    requires forall i :: 0 <= i < |d| ==> IsHex(d[i])
  {
    if d == "" then 0 else HexSoFar(d[..|d| - 1]) * 16 + HexDigit(d[|d| - 1])
  }

  function EscOf(part: string): Esc
    requires GoodPart(part)
  {
    if part == "" then Plain else if part == "\\" then Backslash else HexDigits(|part| - 2, HexSoFar(part[2..]))
  }

  function HighOf(pending: string): nat
    requires GoodPending(pending)
  {
    if pending == "" then 0 else HexValue(pending)
  }

  function StateOf(c: Config): State
    requires Good(c)
  {
    match c
    case WantsValue(sp, first) => Active(StackOf(sp), if first then ValueOrClose else NeedValue)
    case WantsKey(props, _, below, first) =>
      Active(Push(InObject(PropValues([], props), ""), StackOf(below)), if first then KeyOrClose else NeedKey)
    case WantsColon(props, _, key, _, below) =>
      Active(Push(InObject(PropValues([], props), Decode(key).value), StackOf(below)), NeedColon)
    case Has(sp, t, _) => Deliver(StackOf(sp), Value(t))
    case Reads(place, ps, pending, part) =>
      Active(PlaceStack(place), InString(place.AtKey?, Decode(ps).value, EscOf(part), HighOf(pending)))
    case Counts(sp, tok) => Active(StackOf(sp), InNumber(tok, NumTokenPhase(tok).value))
    case Spells(sp, w, k) => Active(StackOf(sp), InWord(WordText(w)[k..], WordValue(w)))
  }

  function PendingText(pending: string): string { if pending == "" then "" else ['\\', 'u'] + pending }

  function LiteralSoFar(ps: seq<Piece>, pending: string, part: string): string
  {
    "\"" + (PiecesText(ps) + (PendingText(pending) + part))
  }

  function TextOf(c: Config): string
  {
    match c
    case WantsValue(sp, _) => Shown(sp, "")
    case WantsKey(props, before, below, _) => Shown(below, "{" + PropsThen(props, before))
    case WantsColon(props, before, key, beforeColon, below) =>
      Shown(below, "{" + PropsThen(props, before + ("\"" + (PiecesText(key) + ("\"" + beforeColon)))))
    case Has(sp, t, after) => Shown(sp, Text(t) + after)
    case Reads(place, ps, pending, part) => PlaceShown(place, LiteralSoFar(ps, pending, part))
    case Counts(sp, tok) => Shown(sp, tok)
    case Spells(sp, w, k) => Shown(sp, WordText(w)[..if k <= |WordText(w)| then k else 0])
  }

  /** `n` derives one byte more than `c`, and its state is the parser's next one. */
  predicate Follows(c: Config, ch: char, n: Config)
    requires Good(c)
  {
    Good(n) && StateOf(n) == Step(StateOf(c), ch) && TextOf(n) == TextOf(c) + [ch]
  }

  // ---- one byte at a time ----

  lemma BeginFollows(sp: Spine, c: char) returns (n: Config)
    requires GoodSpine(sp) && BeginValue(StackOf(sp), c).Active?
    ensures Good(n) && StateOf(n) == BeginValue(StackOf(sp), c) && TextOf(n) == Shown(sp, "") + [c]
  {
    hide Shown;
    ShownMore(sp, "", [c]);
    assert "" + [c] == [c];
    if c == '{' {
      n := WantsKey([], "", sp, true);
      assert "{" + PropsThen([], "") == [c];
    } else if c == '[' {
      n := WantsValue(InList([], "", sp), true);
      OpenListShown(sp);
    } else if c == '"' {
      n := Reads(AtValue(sp), [], "", "");
      assert LiteralSoFar([], "", "") == [c];
    } else if c == 'n' {
      n := Spells(sp, NullWord, 1);
      assert "null"[..1] == [c] && "null"[1..] == "ull";
    } else if c == 't' {
      n := Spells(sp, TrueWord, 1);
      assert "true"[..1] == [c] && "true"[1..] == "rue";
    } else if c == 'f' {
      n := Spells(sp, FalseWord, 1);
      assert "false"[..1] == [c] && "false"[1..] == "alse";
    } else {
      n := Counts(sp, [c]);
      assert [c][1..] == "";
    }
  }

  lemma OpenListShown(sp: Spine)
    ensures Shown(InList([], "", sp), "") == Shown(sp, "[")
  {
    assert "[" + ItemsThen([], "" + "") == "[";
  }

  lemma WantsValueFollows(c: Config, ch: char) returns (n: Config)
    requires Good(c) && c.WantsValue? && Step(StateOf(c), ch).Active?
    ensures Follows(c, ch, n)
  {
    hide Shown, BeginValue;
    var sp := c.spine;
    if IsSpace(ch) {
      n := WantsValue(AddGap(sp, ch), c.first);
      GapMore(sp, ch);
    } else if c.first && ch == ']' {
      n := EmptyListFollows(c);
    } else {
      n := BeginFollows(sp, ch);
    }
  }

  lemma EmptyListFollows(c: Config) returns (n: Config)
    requires Good(c) && c.WantsValue? && c.first
    ensures Follows(c, ']', n)
  {
    var gap, below := c.spine.gap, c.spine.below;
    n := Has(below, Array(gap, []), "");
    ShownMore(c.spine, "", "]");
    assert Text(n.tree) + "" == "[" + (gap + ("" + "]"));
  }

  lemma EmptyRecordFollows(c: Config) returns (n: Config)
    requires Good(c) && c.WantsKey? && c.first
    ensures Follows(c, '}', n)
  {
    n := Has(c.below, Object(c.before, []), "");
    ShownMore(c.below, "{" + c.before, "}");
    assert Text(n.tree) + "" == ("{" + c.before) + "}";
  }

  lemma WantsKeyFollows(c: Config, ch: char) returns (n: Config)
    requires Good(c) && c.WantsKey? && Step(StateOf(c), ch).Active?
    ensures Follows(c, ch, n)
  {
    hide Shown, PropsThen, PropValues, WellFormedProps, LegibleProps, Put;
    var place := AtKey(c.props, c.before, c.below);
    PlaceShownMore(place, "", [ch]);
    assert c.before + "" == c.before && "" + [ch] == [ch];
    if IsSpace(ch) {
      n := WantsKey(c.props, c.before + [ch], c.below, c.first);
    } else if ch == '"' {
      n := Reads(place, [], "", "");
      assert LiteralSoFar([], "", "") == [ch];
    } else {
      n := EmptyRecordFollows(c);
    }
  }

  lemma WantsColonFollows(c: Config, ch: char) returns (n: Config)
    requires Good(c) && c.WantsColon? && Step(StateOf(c), ch).Active?
    ensures Follows(c, ch, n)
  {
    hide Shown;
    var place := AtKey(c.props, c.before, c.below);
    var t := "\"" + (PiecesText(c.key) + ("\"" + c.beforeColon));
    PlaceShownMore(place, t, [ch]);
    KeyEndsWith(c.key, c.beforeColon, ch);
    if IsSpace(ch) {
      n := c.(beforeColon := c.beforeColon + [ch]);
    } else {
      n := WantsValue(InRecord(c.props, c.before, c.key, c.beforeColon, "", c.below), false);
      OpenMemberShown(c.props, c.before, c.key, c.beforeColon, c.below);
    }
  }

  lemma KeyEndsWith(key: seq<Piece>, beforeColon: string, ch: char)
    ensures ("\"" + (PiecesText(key) + ("\"" + beforeColon))) + [ch]
         == "\"" + (PiecesText(key) + ("\"" + (beforeColon + [ch])))
  {
  }

  lemma OpenMemberShown(props: seq<Prop>, before: string, key: seq<Piece>, beforeColon: string, below: Spine)
    ensures Shown(InRecord(props, before, key, beforeColon, "", below), "")
         == Shown(below, "{" + PropsThen(props, before + ("\"" + (PiecesText(key) + ("\"" + (beforeColon + ":"))))))
  {
    assert ":" + ("" + "") == ":";
  }

  // ---- after a value ----

  lemma CommaInList(c: Config) returns (n: Config)
    requires Good(c) && c.Has? && c.spine.InList?
    ensures Good(n) && StateOf(n) == StepAfter(StateOf(c), ',') && TextOf(n) == TextOf(c) + [',']
  {
    var InList(items, gap, below) := c.spine;
    var i := Item(gap, c.tree, c.after);
    n := WantsValue(InList(items + [i], "", below), false);
    ItemsAppend(items, i, []);
    ItemsTextAppend(items, i, "");
    ShownMore(c.spine, Text(c.tree) + c.after, ",");
    assert gap + ((Text(c.tree) + c.after) + ",") == ItemThen(i, ",");
    assert "," + "" == "," && "" + "" == "";
  }

  lemma CloseList(c: Config) returns (n: Config)
    requires Good(c) && c.Has? && c.spine.InList?
    ensures Good(n) && StateOf(n) == StepAfter(StateOf(c), ']') && TextOf(n) == TextOf(c) + [']']
  {
    var InList(items, gap, below) := c.spine;
    var i := Item(gap, c.tree, c.after);
    n := Has(below, Array("", items + [i]), "");
    ItemsAppend(items, i, []);
    ItemsTextAppend(items, i, "");
    ShownMore(c.spine, Text(c.tree) + c.after, "]");
    assert gap + ((Text(c.tree) + c.after) + "]") == ItemThen(i, "]");
    assert Text(n.tree) + "" == "[" + ItemsText(items + [i]);
  }

  lemma CommaInRecord(c: Config) returns (n: Config)
    requires Good(c) && c.Has? && c.spine.InRecord?
    ensures Good(n) && StateOf(n) == StepAfter(StateOf(c), ',') && TextOf(n) == TextOf(c) + [',']
  {
    hide Put, KeyThen;
    var InRecord(props, before, key, beforeColon, gap, below) := c.spine;
    var p := Prop(before, key, beforeColon, Item(gap, c.tree, c.after));
    n := WantsKey(props + [p], "", below, false);
    PropsAppend(props, p, []);
    PropsTextAppend(props, p, "");
    ShownMore(c.spine, Text(c.tree) + c.after, ",");
    assert gap + ((Text(c.tree) + c.after) + ",") == ItemThen(p.item, ",");
    assert "," + "" == ",";
  }

  lemma CloseRecord(c: Config) returns (n: Config)
    requires Good(c) && c.Has? && c.spine.InRecord?
    ensures Good(n) && StateOf(n) == StepAfter(StateOf(c), '}') && TextOf(n) == TextOf(c) + ['}']
  {
    hide Put, KeyThen;
    var InRecord(props, before, key, beforeColon, gap, below) := c.spine;
    var p := Prop(before, key, beforeColon, Item(gap, c.tree, c.after));
    n := Has(below, Object("", props + [p]), "");
    PropsAppend(props, p, []);
    PropsTextAppend(props, p, "");
    ShownMore(c.spine, Text(c.tree) + c.after, "}");
    assert gap + ((Text(c.tree) + c.after) + "}") == ItemThen(p.item, "}");
    assert Text(n.tree) + "" == "{" + PropsText(props + [p]);
  }

  lemma AfterFollows(c: Config, ch: char) returns (n: Config)
    requires Good(c) && c.Has? && StepAfter(StateOf(c), ch).Active?
    ensures Good(n) && StateOf(n) == StepAfter(StateOf(c), ch) && TextOf(n) == TextOf(c) + [ch]
  {
    hide Shown, Put, ItemValues, PropValues;
    if IsSpace(ch) {
      n := c.(after := c.after + [ch]);
      ShownMore(c.spine, Text(c.tree) + c.after, [ch]);
      Concat3(Text(c.tree), c.after, [ch]);
    } else if c.spine.InList? {
      if ch == ',' { n := CommaInList(c); } else { n := CloseList(c); }
    } else {
      if ch == ',' { n := CommaInRecord(c); } else { n := CloseRecord(c); }
    }
  }

  // ---- inside a string ----

  /** One more whole piece, and no pending surrogate. */
  lemma PieceFollows(place: Place, ps: seq<Piece>, pending: string, part: string, c: char, more: seq<Piece>)
    requires ValidPieces(ps) && Decode(ps).Some? && ValidPieces(more) && Decode(more).Some?
    requires PendingText(pending) + (part + [c]) == PiecesText(more)
    ensures ValidPieces(ps + more) && Decode(ps + more) == Some(Decode(ps).value + Decode(more).value)
    ensures PlaceShown(place, LiteralSoFar(ps + more, "", ""))
         == PlaceShown(place, LiteralSoFar(ps, pending, part)) + [c]
  {
    hide PlaceShown, PiecesText, Decode;
    DecodeAppend(ps, more);
    PiecesTextAppend(ps, more);
    PartFollows(place, ps, pending, part, c);
    assert PendingText("") + "" == "";
    assert PiecesText(ps + more) + "" == PiecesText(ps) + (PendingText(pending) + (part + [c]));
  }

  lemma PartFollows(place: Place, ps: seq<Piece>, pending: string, part: string, c: char)
    ensures PlaceShown(place, LiteralSoFar(ps, pending, part + [c]))
         == PlaceShown(place, LiteralSoFar(ps, pending, part)) + [c]
  {
    hide PlaceShown, PiecesText, PendingText;
    PlaceShownMore(place, LiteralSoFar(ps, pending, part), [c]);
    Concat3(PendingText(pending), part, [c]);
    Concat3(PiecesText(ps), PendingText(pending) + part, [c]);
    Concat3("\"", PiecesText(ps) + (PendingText(pending) + part), [c]);
  }

  lemma OnePiece(p: Piece)
    ensures PiecesText([p]) == PieceText(p) && (ValidPieces([p]) <==> ValidPiece(p))
    ensures p.Raw? && ValidPiece(p) ==> Decode([p]) == Some([p.c])
    ensures p.Short? && ValidPiece(p) ==> Decode([p]) == Some([Unescape(p.e)])
    ensures (p.Unicode? && ValidPiece(p) && !HighSurrogate(HexValue(p.digits)) && !LowSurrogate(HexValue(p.digits)))
              ==> Decode([p]) == Some(Utf8(HexValue(p.digits)))
  {
    assert [p][1..] == [];
    assert forall s: string :: s + "" == s;
    assert p in [p];
  }

  lemma SurrogatePair(h: string, l: string)
    requires FourHex(h) && FourHex(l) && HighSurrogate(HexValue(h)) && LowSurrogate(HexValue(l))
    ensures var ps := [Unicode(h), Unicode(l)];
            && ValidPieces(ps) && Decode(ps) == Some(Utf8Pair(HexValue(h), HexValue(l)))
            && PiecesText(ps) == (['\\', 'u'] + h) + (['\\', 'u'] + l)
  {
    hide PiecesText, Decode, HexValue, Utf8Pair;
    var (p, q) := (Unicode(h), Unicode(l));
    assert [p, q] == [p] + [q] == [p, q] + [];
    OnePiece(p);
    OnePiece(q);
    PiecesTextAppend([p], [q]);
    DecodeNone();
    DecodeFirstTwo(p, q, []);
    assert Utf8Pair(HexValue(h), HexValue(l)) + "" == Utf8Pair(HexValue(h), HexValue(l));
  }

  lemma PlainFollows(c: Config, ch: char) returns (n: Config)
    requires Good(c) && c.Reads? && c.part == "" && ch != '"' && Step(StateOf(c), ch).Active?
    ensures Follows(c, ch, n)
  {
    hide PlaceShown, PiecesText, Decode, PlaceStack;
    if ch == '\\' {
      n := Reads(c.place, c.pieces, c.pending, "\\");
      PartFollows(c.place, c.pieces, c.pending, "", ch);
      assert "" + [ch] == "\\";
    } else {
      OnePiece(Raw(ch));
      PieceFollows(c.place, c.pieces, c.pending, "", ch, [Raw(ch)]);
      n := Reads(c.place, c.pieces + [Raw(ch)], "", "");
    }
  }

  lemma ShortFollows(c: Config, ch: char) returns (n: Config)
    requires Good(c) && c.Reads? && c.part == "\\" && Step(StateOf(c), ch).Active?
    ensures Follows(c, ch, n)
  {
    hide PlaceShown, PiecesText, Decode, PlaceStack;
    if ch == 'u' {
      n := Reads(c.place, c.pieces, c.pending, "\\u");
      PartFollows(c.place, c.pieces, c.pending, "\\", ch);
      assert "\\" + [ch] == "\\u" && "\\u"[2..] == "";
    } else {
      OnePiece(Short(ch));
      assert "\\" + [ch] == PieceText(Short(ch));
      PieceFollows(c.place, c.pieces, c.pending, "\\", ch, [Short(ch)]);
      n := Reads(c.place, c.pieces + [Short(ch)], "", "");
    }
  }

  lemma HexSoFarMore(d: string, c: char)
    requires (forall i :: 0 <= i < |d| ==> IsHex(d[i])) && IsHex(c)
    ensures HexSoFar(d + [c]) == HexSoFar(d) * 16 + HexDigit(c)
  {
  }

  lemma FourHexValue(d: string)
    requires FourHex(d)
    ensures HexSoFar(d) == HexValue(d)
  {
    hide HexSoFar, HexDigit;
    HexSoFarNone();
    HexSoFarMore("", d[0]);
    assert "" + [d[0]] == d[..1];
    HexSoFarMore(d[..1], d[1]);
    assert d[..1] + [d[1]] == d[..2];
    HexSoFarMore(d[..2], d[2]);
    assert d[..2] + [d[2]] == d[..3];
    HexSoFarMore(d[..3], d[3]);
    assert d[..3] + [d[3]] == d;
  }

  lemma HexSoFarNone()
    ensures HexSoFar("") == 0
  {
  }

  lemma HexFollows(c: Config, ch: char) returns (n: Config)
    requires Good(c) && c.Reads? && |c.part| >= 2 && Step(StateOf(c), ch).Active?
    ensures Follows(c, ch, n)
  {
    hide PlaceShown, PiecesText, Decode, PlaceStack, HexSoFar, HexDigit, HighSurrogate, LowSurrogate, Utf8, Utf8Pair;
    var d := c.part[2..] + [ch];
    assert (c.part + [ch])[2..] == d;
    HexSoFarMore(c.part[2..], ch);
    if |c.part| < 5 {
      n := Reads(c.place, c.pieces, c.pending, c.part + [ch]);
      assert (c.part + [ch])[..2] == c.part[..2];
      PartFollows(c.place, c.pieces, c.pending, c.part, ch);
    } else {
      FourHexValue(d);
      assert c.part + [ch] == ['\\', 'u'] + d;
      n := CodeUnitFollows(c, ch, d);
    }
  }

  lemma CodeUnitFollows(c: Config, ch: char, d: string) returns (n: Config)
    requires Good(c) && c.Reads? && FourHex(d) && c.part + [ch] == ['\\', 'u'] + d
    requires CodeUnit(PlaceStack(c.place), StateOf(c).mode, HexValue(d)).Active?
    ensures Good(n) && StateOf(n) == CodeUnit(PlaceStack(c.place), StateOf(c).mode, HexValue(d))
    ensures TextOf(n) == TextOf(c) + [ch]
  {
    hide PlaceShown, PiecesText, Decode, PlaceStack, HexValue, Utf8, Utf8Pair;
    if c.pending != "" {
      SurrogatePair(c.pending, d);
      PieceFollows(c.place, c.pieces, c.pending, c.part, ch, [Unicode(c.pending), Unicode(d)]);
      n := Reads(c.place, c.pieces + [Unicode(c.pending), Unicode(d)], "", "");
    } else if HighSurrogate(HexValue(d)) {
      n := Reads(c.place, c.pieces, d, "");
      PartFollows(c.place, c.pieces, "", c.part, ch);
      assert "" + (c.part + [ch]) == PendingText(d) + "";
    } else {
      OnePiece(Unicode(d));
      assert PendingText("") + (c.part + [ch]) == PieceText(Unicode(d));
      PieceFollows(c.place, c.pieces, "", c.part, ch, [Unicode(d)]);
      n := Reads(c.place, c.pieces + [Unicode(d)], "", "");
    }
  }

  lemma QuoteFollows(c: Config) returns (n: Config)
    requires Good(c) && c.Reads? && c.part == "" && Step(StateOf(c), '"').Active?
    ensures Follows(c, '"', n)
  {
    hide Shown, PiecesText, Decode;
    PartFollows(c.place, c.pieces, "", "", '"');
    assert c.pending == "";
    assert "\"" + (PiecesText(c.pieces) + (PendingText("") + ("" + ['"']))) == "\"" + (PiecesText(c.pieces) + "\"");
    match c.place {
      case AtValue(sp) =>
        n := Has(sp, String(c.pieces), "");
        assert Text(String(c.pieces)) + "" == Text(String(c.pieces));
      case AtKey(props, before, below) =>
        n := WantsColon(props, before, c.pieces, "", below);
        assert "\"" + "" == "\"";
    }
  }

  // ---- numbers and words ----

  lemma CountsFollows(c: Config, ch: char) returns (n: Config)
    requires Good(c) && c.Counts? && Step(StateOf(c), ch).Active?
    ensures Follows(c, ch, n)
  {
    hide Shown, StepAfter;
    var tok := c.token;
    if NumNext(NumTokenPhase(tok).value, ch).Some? {
      n := Counts(c.spine, tok + [ch]);
      NumRunAppend(NumStart(tok[0]).value, tok[1..], ch);
      assert (tok + [ch])[1..] == tok[1..] + [ch];
      ShownMore(c.spine, tok, [ch]);
    } else {
      var whole := Has(c.spine, Number(tok), "");
      assert tok + "" == tok;
      n := AfterFollows(whole, ch);
    }
  }

  lemma SpellsFollows(c: Config, ch: char) returns (n: Config)
    requires Good(c) && c.Spells? && Step(StateOf(c), ch).Active?
    ensures Follows(c, ch, n)
  {
    hide Shown, StackOf;
    var text := WordText(c.word);
    ShownMore(c.spine, text[..c.count], [ch]);
    assert text[..c.count] + [ch] == text[..c.count + 1];
    assert text[c.count..][1..] == text[c.count + 1..];
    if c.count + 1 == |text| {
      n := Has(c.spine, Literal(c.word), "");
      assert text[..c.count + 1] == text == text + "";
    } else {
      n := Spells(c.spine, c.word, c.count + 1);
    }
  }

  lemma ReadsFollows(c: Config, ch: char) returns (n: Config)
    requires Good(c) && c.Reads? && Step(StateOf(c), ch).Active?
    ensures Follows(c, ch, n)
  {
    hide Follows, Step, StateOf;
    if c.part == "\\" {
      n := ShortFollows(c, ch);
    } else if c.part != "" {
      n := HexFollows(c, ch);
    } else if ch == '"' {
      n := QuoteFollows(c);
    } else {
      n := PlainFollows(c, ch);
    }
  }

  lemma HasFollows(c: Config, ch: char) returns (n: Config)
    requires Good(c) && c.Has? && Step(StateOf(c), ch).Active?
    ensures Follows(c, ch, n)
  {
    hide StepAfter, Put;
    n := AfterFollows(c, ch);
  }

  /** Whenever the parser goes on, so does the derivation. */
  lemma StepFollows(c: Config, ch: char) returns (n: Config)
    requires Good(c) && Step(StateOf(c), ch).Active?
    ensures Follows(c, ch, n)
  {
    hide Follows, Step, StateOf, Good;
    match c {
      case WantsValue(_, _) => n := WantsValueFollows(c, ch);
      case WantsKey(_, _, _, _) => n := WantsKeyFollows(c, ch);
      case WantsColon(_, _, _, _, _) => n := WantsColonFollows(c, ch);
      case Has(_, _, _) => n := HasFollows(c, ch);
      case Reads(_, _, _, _) => n := ReadsFollows(c, ch);
      case Counts(_, _) => n := CountsFollows(c, ch);
      case Spells(_, _, _) => n := SpellsFollows(c, ch);
    }
  }

  lemma {:induction false} RunFollows(c: Config, s: string) returns (n: Config)
    requires Good(c) && RunFrom(StateOf(c), s).Active?
    ensures Good(n) && StateOf(n) == RunFrom(StateOf(c), s) && TextOf(n) == TextOf(c) + s
    decreases s
  {
    hide Step, StateOf, TextOf, Good;
    if s == "" {
      n := c;
    } else {
      if Step(StateOf(c), s[0]).Rejected? { StaysRejected(s[1..]); }
      var m := StepFollows(c, s[0]);
      n := RunFollows(m, s[1..]);
      assert (TextOf(c) + [s[0]]) + s[1..] == TextOf(c) + s;
    }
  }

  // ---- the parser is the grammar ----

  /** `s` is an RFC 8259 text of the value `v`, with at most `depth` containers open at once. */
  ghost predicate IsText(s: string, v: Json, depth: int)
  {
    exists before, t, after ::
      && Spaces(before) && Spaces(after) && WellFormed(t) && Legible(t)
      && s == before + (Text(t) + after) && Value(t) == v && Depth(t) <= depth
  }

  lemma ParsedIsText(s: string) returns (before: string, t: Tree, after: string)
    requires Parse(s).Some?
    ensures Spaces(before) && Spaces(after) && WellFormed(t) && Legible(t)
    ensures s == before + (Text(t) + after) && Value(t) == Parse(s).value
  {
    hide RunFrom;
    var c := WantsValue(Root(""), false);
    var n := RunFollows(c, s);
    assert "" + "" == "" && "" + s == s;
    RunDoneAtBottom(START, s);
    before := n.spine.gap;
    if n.Counts? {
      t, after := Number(n.token), "";
      assert n.token + "" == n.token;
    } else {
      t, after := n.tree, n.after;
    }
  }

  /** The parser accepts exactly the RFC 8259 texts whose surrogates are paired, and finds the
      value each of them denotes. */
  lemma ParserIsGrammar(s: string, v: Json)
    ensures Parse(s) == Some(v) <==> exists depth :: IsText(s, v, depth)
  {
    if Parse(s) == Some(v) {
      var before, t, after := ParsedIsText(s);
      assert IsText(s, v, Depth(t));
    }
    if depth :| IsText(s, v, depth) {
      var before, t, after :|
        && Spaces(before) && Spaces(after) && WellFormed(t) && Legible(t)
        && s == before + (Text(t) + after) && Value(t) == v && Depth(t) <= depth;
      ParsesEveryText(before, t, after);
    }
  }

  /** What SafeJsonParse lets through is the grammar cut off at depth 128, nothing more and
      nothing less. */
  lemma SafeParseIsShallowGrammar(s: string, v: Json)
    ensures SafeParse(s) == Some(v) <==> IsText(s, v, MAX_JSON_PARSE_DEPTH)
  {
    if SafeParse(s) == Some(v) {
      var before, t, after := ParsedIsText(s);
      GuardMeasuresDepth(before, t, after);
    }
    if IsText(s, v, MAX_JSON_PARSE_DEPTH) {
      var before, t, after :|
        && Spaces(before) && Spaces(after) && WellFormed(t) && Legible(t)
        && s == before + (Text(t) + after) && Value(t) == v && Depth(t) <= MAX_JSON_PARSE_DEPTH;
      SafeParseOfText(before, t, after);
    }
  }
}
