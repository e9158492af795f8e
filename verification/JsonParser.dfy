/** A reference pushdown parser for RFC 8259: one step per byte, one stack frame per open
    container. It stands for `nlohmann::json::parse`. */
module JsonParser {
  import opened SortedMaps
  import opened JsonValues

  // `key` is the member name being filled; it is meaningful from NeedColon on.
  datatype Frame = InArray(elems: seq<Json>) | InObject(members: seq<Entry<Json>>, key: string)

  datatype Stack = Bottom | Push(top: Frame, below: Stack)

  function Height(s: Stack): nat
  {
    match s case Bottom => 0 case Push(_, below) => 1 + Height(below)
  }

  datatype Esc = Plain | Backslash | HexDigits(count: nat, acc: nat)

  datatype Mode =
    | NeedValue
    | ValueOrClose
    | NeedKey
    | KeyOrClose
    | NeedColon
    | AfterValue
    | Done(result: Json)
    | InString(isKey: bool, text: string, esc: Esc, high: nat) // high: unpaired surrogate, or 0
    | InNumber(token: string, phase: NumPhase)
    | InWord(rest: string, word: Json)

  datatype State = Rejected | Active(stack: Stack, mode: Mode)

  const START := Active(Bottom, NeedValue)

  /** Hands a finished value to the innermost open container. */
  function Deliver(stack: Stack, v: Json): State
  {
    match stack
    case Bottom => Active(Bottom, Done(v))
    case Push(InArray(es), below) => Active(Push(InArray(es + [v]), below), AfterValue)
    case Push(InObject(ms, k), below) => Active(Push(InObject(Put(ms, k, v), ""), below), AfterValue)
  }

  function BeginValue(stack: Stack, c: char): State
  {
    if c == '{' then Active(Push(InObject([], ""), stack), KeyOrClose)
    else if c == '[' then Active(Push(InArray([]), stack), ValueOrClose)
    else if c == '"' then Active(stack, InString(false, "", Plain, 0))
    else if c == 'n' then Active(stack, InWord("ull", Null))
    else if c == 't' then Active(stack, InWord("rue", Bool(true)))
    else if c == 'f' then Active(stack, InWord("alse", Bool(false)))
    else match NumStart(c)
      case Some(p) => Active(stack, InNumber([c], p))
      case None => Rejected
  }

  function Close(stack: Stack, c: char): State
  {
    match stack
    case Push(InArray(es), below) => if c == ']' then Deliver(below, Arr(es)) else Rejected
    case Push(InObject(ms, _), below) => if c == '}' then Deliver(below, Obj(ms)) else Rejected
    case Bottom => Rejected
  }

  /** One byte once a value is complete. */
  function StepAfter(st: State, c: char): State
  {
    if st.Rejected? then Rejected
    else if IsSpace(c) then st
    else if st.mode.Done? then Rejected
    else if c == ',' && st.stack.Push? then
      Active(st.stack, if st.stack.top.InArray? then NeedValue else NeedKey)
    else Close(st.stack, c)
  }

  function CodeUnit(stack: Stack, m: Mode, u: nat): State
    requires m.InString?
  {
    if HighSurrogate(m.high) then
      if LowSurrogate(u) then Active(stack, InString(m.isKey, m.text + Utf8Pair(m.high, u), Plain, 0)) else Rejected
    else if HighSurrogate(u) then Active(stack, InString(m.isKey, m.text, Plain, u))
    else if LowSurrogate(u) then Rejected
    else Active(stack, InString(m.isKey, m.text + Utf8(u), Plain, 0))
  }

  function EndString(stack: Stack, m: Mode): State
    requires m.InString?
  {
    if !m.isKey then Deliver(stack, Str(m.text))
    else match stack
      case Push(InObject(ms, _), below) => Active(Push(InObject(ms, m.text), below), NeedColon)
      case _ => Rejected
  }

  function StepString(stack: Stack, m: Mode, c: char): State
    requires m.InString?
  {
    match m.esc
    case Plain =>
      if c == '\\' then Active(stack, m.(esc := Backslash))
      else if HighSurrogate(m.high) then Rejected
      else if c == '"' then EndString(stack, m)
      else if c < ' ' then Rejected
      else Active(stack, m.(text := m.text + [c]))
    case Backslash =>
      if c == 'u' then Active(stack, m.(esc := HexDigits(0, 0)))
      else if HighSurrogate(m.high) || !IsShortEscape(c) then Rejected
      else Active(stack, m.(text := m.text + [Unescape(c)], esc := Plain))
    case HexDigits(n, acc) =>
      if !IsHex(c) then Rejected
      else if n < 3 then Active(stack, m.(esc := HexDigits(n + 1, acc * 16 + HexDigit(c))))
      else CodeUnit(stack, m, acc * 16 + HexDigit(c))
  }

  function Step(st: State, c: char): State
  {
    if st.Rejected? then Rejected
    else match st.mode
      case NeedValue => if IsSpace(c) then st else BeginValue(st.stack, c)
      case ValueOrClose =>
        if IsSpace(c) then st else if c == ']' then Close(st.stack, c) else BeginValue(st.stack, c)
      case NeedKey =>
        if IsSpace(c) then st
        else if c == '"' then Active(st.stack, InString(true, "", Plain, 0)) else Rejected
      case KeyOrClose =>
        if IsSpace(c) then st
        else if c == '}' then Close(st.stack, c)
        else if c == '"' then Active(st.stack, InString(true, "", Plain, 0)) else Rejected
      case NeedColon =>
        if IsSpace(c) then st else if c == ':' then Active(st.stack, NeedValue) else Rejected
      case AfterValue => StepAfter(st, c)
      case Done(_) => StepAfter(st, c)
      case InString(_, _, _, _) => StepString(st.stack, st.mode, c)
      case InNumber(tok, p) =>
        (match NumNext(p, c)
         case Some(q) => Active(st.stack, InNumber(tok + [c], q))
         case None => if NumFinal(p) then StepAfter(Deliver(st.stack, Num(tok)), c) else Rejected)
      case InWord(rest, w) =>
        if rest == "" || rest[0] != c then Rejected
        else if |rest| == 1 then Deliver(st.stack, w)
        else Active(st.stack, InWord(rest[1..], w))
  }

  function RunFrom(st: State, s: string): State
    decreases s
  {
    if s == "" then st else RunFrom(Step(st, s[0]), s[1..])
  }

  /** A number is complete only when the byte after it, or the end, is seen. */
  function Settled(st: State): State
  {
    if st.Active? && st.mode.InNumber? && NumFinal(st.mode.phase) then Deliver(st.stack, Num(st.mode.token)) else st
  }

  function Parse(s: string): Option<Json>
  {
    match Settled(RunFrom(START, s))
    case Active(_, Done(v)) => Some(v)
    case _ => None
  }

  function StackHeight(st: State): nat { if st.Rejected? then 0 else Height(st.stack) }

  /** The largest number of containers the parser has open at once. */
  function Peak(st: State, s: string): nat
    decreases s
  {
    if s == "" then StackHeight(st) else Max(StackHeight(st), Peak(Step(st, s[0]), s[1..]))
  }

  lemma {:induction false} RunAppend(st: State, a: string, b: string)
    ensures RunFrom(st, a + b) == RunFrom(RunFrom(st, a), b)
    decreases a
  {
    if a == "" {
      assert a + b == b;
    } else {
      assert (a + b)[1..] == a[1..] + b;
      RunAppend(Step(st, a[0]), a[1..], b);
    }
  }

  lemma {:induction false} StaysRejected(s: string)
    ensures RunFrom(Rejected, s) == Rejected
  {
    if s == "" {
    } else {
      StaysRejected(s[1..]);
    }
  }

  lemma {:induction false} PeakCoversPrefixes(st: State, s: string, k: nat)
    requires k <= |s|
    ensures StackHeight(RunFrom(st, s[..k])) <= Peak(st, s)
    decreases s
  {
    if k == 0 {
    } else {
      PeakCoversPrefixes(Step(st, s[0]), s[1..], k - 1);
      assert s[..k][1..] == s[1..][..k - 1];
    }
  }

  // ---- completeness: the parser accepts every text and finds its value ----

  predicate SkipsSpace(m: Mode)
  {
    !m.InString? && !m.InNumber? && !m.InWord?
  }

  lemma {:induction false} RunSpaces(st: State, ws: string)
    requires Spaces(ws) && st.Active? && SkipsSpace(st.mode)
    ensures RunFrom(st, ws) == st
  {
    if ws == "" {
    } else {
      RunSpaces(st, ws[1..]);
    }
  }

  predicate IsDelimiter(c: char) { IsSpace(c) || c == ',' || c == ']' || c == '}' }

  /** A delimiter ends a pending number without being consumed by it. */
  lemma Delimit(st: State, s: string)
    requires s != "" && IsDelimiter(s[0])
    ensures RunFrom(st, s) == RunFrom(Settled(st), s)
  {
  }

  lemma Run1(st: State, c: char, r: string)
    ensures RunFrom(st, [c] + r) == RunFrom(Step(st, c), r)
  {
  }

  lemma RunNone(st: State)
    ensures RunFrom(st, "") == st
  {
  }

  lemma RunOne(st: State, c: char)
    ensures RunFrom(st, [c]) == Step(st, c)
  {
  }

  /** The value of more hexadecimal digits behind those that give `acc`. */
  function HexOnto(acc: nat, d: string): nat
    requires forall i :: 0 <= i < |d| ==> IsHex(d[i])
    decreases d
  {
    if d == "" then acc else HexOnto(acc * 16 + HexDigit(d[0]), d[1..])
  }

  lemma HexOntoNext(acc: nat, d: string, k: nat)
    requires FourHex(d) && k < 4
    ensures HexOnto(acc, d[k..]) == HexOnto(acc * 16 + HexDigit(d[k]), d[k + 1..])
  {
    assert d[k..][1..] == d[k + 1..];
  }

  lemma HexOntoNothing(d: string)
    requires FourHex(d)
    ensures HexOnto(0, d) == HexValue(d)
  {
    var two := HexDigit(d[0]) * 16 + HexDigit(d[1]);
    assert d[0..] == d && d[4..] == "";
    HexOntoNext(0, d, 0);
    HexOntoNext(HexDigit(d[0]), d, 1);
    HexOntoNext(two, d, 2);
    HexOntoNext(two * 16 + HexDigit(d[2]), d, 3);
  }

  lemma {:induction false} RunHexDigits(stack: Stack, m: Mode, d: string)
    requires m.InString? && m.esc.HexDigits? && m.esc.count < 4 && |d| == 4 - m.esc.count
    requires forall i :: 0 <= i < |d| ==> IsHex(d[i])
    ensures RunFrom(Active(stack, m), d) == CodeUnit(stack, m, HexOnto(m.esc.acc, d))
    decreases d
  {
    hide HexDigit, EndString;
    var (n, acc) := (m.esc.count, m.esc.acc * 16 + HexDigit(d[0]));
    if |d| == 1 {
      assert d[1..] == "" && d == [d[0]];
    } else {
      var next := m.(esc := HexDigits(n + 1, acc));
      assert Step(Active(stack, m), d[0]) == Active(stack, next);
      RunHexDigits(stack, next, d[1..]);
    }
  }

  lemma RunUnicode(stack: Stack, m: Mode, d: string)
    requires m.InString? && m.esc == Plain && FourHex(d)
    ensures RunFrom(Active(stack, m), ['\\', 'u'] + d) == CodeUnit(stack, m, HexValue(d))
  {
    var s1, s2 := Active(stack, m.(esc := Backslash)), Active(stack, m.(esc := HexDigits(0, 0)));
    assert Step(Active(stack, m), '\\') == s1 && Step(s1, 'u') == s2;
    hide RunFrom, Step, HexValue, HexOnto;
    assert ['\\', 'u'] + d == ['\\'] + (['u'] + d);
    Run1(Active(stack, m), '\\', ['u'] + d);
    Run1(s1, 'u', d);
    RunHexDigits(stack, s2.mode, d);
    HexOntoNothing(d);
  }

  /** A piece that is not a surrogate adds its bytes to the string being read. */
  lemma RunPiece(stack: Stack, isKey: bool, t: string, p: Piece)
    requires ValidPiece(p) && Decode([p]).Some?
    ensures RunFrom(Active(stack, InString(isKey, t, Plain, 0)), PieceText(p))
         == Active(stack, InString(isKey, t + Decode([p]).value, Plain, 0))
  {
    hide RunFrom;
    var m := InString(isKey, t, Plain, 0);
    assert [p][1..] == [];
    match p {
      case Raw(c) =>
        assert [c] + "" == [c];
        RunOne(Active(stack, m), c);
      case Short(e) =>
        assert ['\\', e] == ['\\'] + [e];
        Run1(Active(stack, m), '\\', [e]);
        RunOne(Active(stack, InString(isKey, t, Backslash, 0)), e);
        assert [Unescape(e)] + "" == [Unescape(e)];
      case Unicode(d) =>
        RunUnicode(stack, m, d);
        assert Utf8(HexValue(d)) + "" == Utf8(HexValue(d));
    }
  }

  lemma DecodeOne(ps: seq<Piece>)
    requires ps != [] && ValidPieces(ps) && Decode(ps).Some?
    requires !(ps[0].Unicode? && ValidPiece(ps[0]) && HighSurrogate(HexValue(ps[0].digits)))
    ensures ValidPiece(ps[0]) && Decode([ps[0]]).Some? && Decode(ps[1..]).Some?
    ensures Decode(ps).value == Decode([ps[0]]).value + Decode(ps[1..]).value
  {
    assert ps[0] in ps;
    assert [ps[0]][1..] == [];
    assert forall s: string :: s + "" == s;
  }

  lemma DecodePair(ps: seq<Piece>)
    requires ps != [] && ValidPieces(ps) && Decode(ps).Some?
    requires ps[0].Unicode? && ValidPiece(ps[0]) && HighSurrogate(HexValue(ps[0].digits))
    ensures |ps| > 1 && ps[1].Unicode? && ValidPiece(ps[1]) && LowSurrogate(HexValue(ps[1].digits))
    ensures Decode(ps[2..]).Some?
    ensures Decode(ps).value == Utf8Pair(HexValue(ps[0].digits), HexValue(ps[1].digits)) + Decode(ps[2..]).value
  {
    assert ps[1] in ps;
  }

  lemma PiecesTextTwo(ps: seq<Piece>)
    requires |ps| > 1
    ensures PiecesText(ps) == (PieceText(ps[0]) + PieceText(ps[1])) + PiecesText(ps[2..])
  {
  }

  lemma RunPairedSurrogates(stack: Stack, isKey: bool, t: string, d: string, e: string)
    requires FourHex(d) && FourHex(e) && HighSurrogate(HexValue(d)) && LowSurrogate(HexValue(e))
    ensures RunFrom(Active(stack, InString(isKey, t, Plain, 0)), (['\\', 'u'] + d) + (['\\', 'u'] + e))
         == Active(stack, InString(isKey, t + Utf8Pair(HexValue(d), HexValue(e)), Plain, 0))
  {
    hide RunFrom;
    var m := InString(isKey, t, Plain, 0);
    RunAppend(Active(stack, m), ['\\', 'u'] + d, ['\\', 'u'] + e);
    RunUnicode(stack, m, d);
    RunUnicode(stack, InString(isKey, t, Plain, HexValue(d)), e);
  }

  function Reading(stack: Stack, isKey: bool, t: string): State
  {
    Active(stack, InString(isKey, t, Plain, 0))
  }

  lemma ReadBoth(stack: Stack, isKey: bool, t: string, a: string, va: string, b: string, vb: string)
    requires RunFrom(Reading(stack, isKey, t), a) == Reading(stack, isKey, t + va)
    requires RunFrom(Reading(stack, isKey, t + va), b) == Reading(stack, isKey, (t + va) + vb)
    ensures RunFrom(Reading(stack, isKey, t), a + b) == Reading(stack, isKey, t + (va + vb))
  {
    hide RunFrom;
    RunAppend(Reading(stack, isKey, t), a, b);
    assert (t + va) + vb == t + (va + vb);
  }

  lemma {:induction false} RunPieces(stack: Stack, isKey: bool, t: string, ps: seq<Piece>)
    requires ValidPieces(ps) && Decode(ps).Some?
    ensures RunFrom(Reading(stack, isKey, t), PiecesText(ps)) == Reading(stack, isKey, t + Decode(ps).value)
    decreases |ps|
  {
    hide RunFrom;
    if ps == [] {
      RunNone(Reading(stack, isKey, t));
      assert t + "" == t;
    } else {
      assert ps[0] in ps;
      if ps[0].Unicode? && HighSurrogate(HexValue(ps[0].digits)) {
        DecodePair(ps);
        PiecesTextTwo(ps);
        var pair := Utf8Pair(HexValue(ps[0].digits), HexValue(ps[1].digits));
        RunPairedSurrogates(stack, isKey, t, ps[0].digits, ps[1].digits);
        RunPieces(stack, isKey, t + pair, ps[2..]);
        var text := PieceText(ps[0]) + PieceText(ps[1]);
        ReadBoth(stack, isKey, t, text, pair, PiecesText(ps[2..]), Decode(ps[2..]).value);
      } else {
        DecodeOne(ps);
        var one := Decode([ps[0]]).value;
        RunPiece(stack, isKey, t, ps[0]);
        RunPieces(stack, isKey, t + one, ps[1..]);
        ReadBoth(stack, isKey, t, PieceText(ps[0]), one, PiecesText(ps[1..]), Decode(ps[1..]).value);
      }
    }
  }

  lemma {:induction false} RunDigits(stack: Stack, tok: string, p: NumPhase, s: string)
    requires NumRun(p, s).Some?
    ensures RunFrom(Active(stack, InNumber(tok, p)), s) == Active(stack, InNumber(tok + s, NumRun(p, s).value))
    decreases s
  {
    if s == "" {
      assert tok + s == tok;
    } else {
      RunDigits(stack, tok + [s[0]], NumNext(p, s[0]).value, s[1..]);
      assert tok + [s[0]] + s[1..] == tok + s;
    }
  }

  lemma {:induction false} RunWord(stack: Stack, rest: string, w: Json)
    requires rest != ""
    ensures RunFrom(Active(stack, InWord(rest, w)), rest) == Deliver(stack, w)
    decreases rest
  {
    if |rest| == 1 {
    } else {
      RunWord(stack, rest[1..], w);
    }
  }

  lemma RunLiteral(stack: Stack, m: Mode, w: Word)
    requires m == NeedValue || m == ValueOrClose
    ensures RunFrom(Active(stack, m), WordText(w)) == Deliver(stack, WordValue(w))
  {
    hide RunFrom;
    var rest := match w case NullWord => "ull" case TrueWord => "rue" case FalseWord => "alse";
    var c := match w case NullWord => 'n' case TrueWord => 't' case FalseWord => 'f';
    assert WordText(w) == [c] + rest;
    Run1(Active(stack, m), c, rest);
    RunWord(stack, rest, WordValue(w));
  }

  lemma RunNumber(stack: Stack, m: Mode, tok: string)
    requires ValidNumber(tok) && (m == NeedValue || m == ValueOrClose)
    ensures Settled(RunFrom(Active(stack, m), tok)) == Deliver(stack, Num(tok))
  {
    hide RunFrom;
    assert tok == [tok[0]] + tok[1..];
    Run1(Active(stack, m), tok[0], tok[1..]);
    RunDigits(stack, [tok[0]], NumStart(tok[0]).value, tok[1..]);
  }

  lemma RunString(stack: Stack, m: Mode, ps: seq<Piece>)
    requires ValidPieces(ps) && Decode(ps).Some?
    requires m == NeedValue || m == ValueOrClose
    ensures RunFrom(Active(stack, m), "\"" + (PiecesText(ps) + "\"")) == Deliver(stack, Str(Decode(ps).value))
  {
    hide RunFrom;
    Run1(Active(stack, m), '"', PiecesText(ps) + "\"");
    RunAppend(Active(stack, InString(false, "", Plain, 0)), PiecesText(ps), "\"");
    RunPieces(stack, false, "", ps);
    assert "" + Decode(ps).value == Decode(ps).value;
    RunOne(Active(stack, InString(false, Decode(ps).value, Plain, 0)), '"');
  }

  lemma RunEmpty(stack: Stack, m: Mode, gap: string, open: char, close: char)
    requires Spaces(gap) && (m == NeedValue || m == ValueOrClose)
    requires (open == '[' && close == ']') || (open == '{' && close == '}')
    ensures RunFrom(Active(stack, m), [open] + (gap + [close]))
         == Deliver(stack, if open == '[' then Arr([]) else Obj([]))
  {
    hide RunFrom;
    Run1(Active(stack, m), open, gap + [close]);
    var inner := Step(Active(stack, m), open);
    RunAppend(inner, gap, [close]);
    RunSpaces(inner, gap);
    RunOne(inner, close);
  }

  lemma {:induction false} RunTree(stack: Stack, m: Mode, t: Tree)
    requires WellFormed(t) && Legible(t)
    requires m == NeedValue || m == ValueOrClose
    ensures Settled(RunFrom(Active(stack, m), Text(t))) == Deliver(stack, Value(t))
    decreases t, 0
  {
    hide RunFrom;
    match t {
      case Literal(w) => RunLiteral(stack, m, w);
      case Number(tok) => RunNumber(stack, m, tok);
      case String(ps) => RunString(stack, m, ps);
      case Array(gap, items) =>
        if items == [] {
          RunEmpty(stack, m, gap, '[', ']');
        } else {
          Run1(Active(stack, m), '[', ItemsText(items));
          RunItems(stack, ValueOrClose, [], items);
        }
      case Object(gap, props) =>
        if props == [] {
          RunEmpty(stack, m, gap, '{', '}');
        } else {
          Run1(Active(stack, m), '{', PropsText(props));
          RunProps(stack, KeyOrClose, [], props);
        }
    }
  }

  /** A value, the space after it and the delimiter `tail` starts with. */
  lemma {:induction false} RunItem(stack: Stack, m: Mode, i: Item, tail: string)
    requires WellFormed(i.tree) && Legible(i.tree) && Spaces(i.before) && Spaces(i.after)
    requires m == NeedValue || m == ValueOrClose
    requires tail != "" && IsDelimiter(tail[0])
    ensures RunFrom(Active(stack, m), i.before + (Text(i.tree) + (i.after + tail)))
         == RunFrom(Deliver(stack, Value(i.tree)), tail)
    decreases i, 1
  {
    hide RunFrom;
    var st := Active(stack, m);
    RunAppend(st, i.before, Text(i.tree) + (i.after + tail));
    RunSpaces(st, i.before);
    RunAppend(st, Text(i.tree), i.after + tail);
    RunTree(stack, m, i.tree);
    assert IsDelimiter((i.after + tail)[0]);
    Delimit(RunFrom(st, Text(i.tree)), i.after + tail);
    var d := Deliver(stack, Value(i.tree));
    RunAppend(d, i.after, tail);
    RunSpaces(d, i.after);
  }

  lemma {:induction false} RunItems(stack: Stack, m: Mode, done: seq<Json>, items: seq<Item>)
    requires items != [] && WellFormedItems(items) && LegibleItems(items)
    requires m == NeedValue || m == ValueOrClose
    ensures RunFrom(Active(Push(InArray(done), stack), m), ItemsText(items))
         == Deliver(stack, Arr(ItemValues(done, items)))
    decreases items, 2
  {
    hide RunFrom;
    var tail := if |items| == 1 then "]" else "," + ItemsText(items[1..]);
    RunItem(Push(InArray(done), stack), m, items[0], tail);
    var next := done + [Value(items[0].tree)];
    var st := Active(Push(InArray(next), stack), AfterValue);
    if |items| == 1 {
      RunOne(st, ']');
      assert ItemValues(done, items) == ItemValues(next, items[1..]) == next;
    } else {
      Run1(st, ',', ItemsText(items[1..]));
      RunItems(stack, NeedValue, next, items[1..]);
    }
  }

  lemma {:induction false} RunKey(stack: Stack, m: Mode, done: seq<Entry<Json>>, k: string, p: Prop, tail: string)
    requires Spaces(p.before) && ValidPieces(p.key) && Decode(p.key).Some? && Spaces(p.beforeColon)
    requires m == NeedKey || m == KeyOrClose
    ensures RunFrom(Active(Push(InObject(done, k), stack), m),
                    p.before + ("\"" + (PiecesText(p.key) + ("\"" + (p.beforeColon + (":" + tail))))))
         == RunFrom(Active(Push(InObject(done, Decode(p.key).value), stack), NeedValue), tail)
  {
    hide RunFrom;
    var frame := Push(InObject(done, k), stack);
    var named := Push(InObject(done, Decode(p.key).value), stack);
    var s3 := p.beforeColon + (":" + tail);
    RunAppend(Active(frame, m), p.before, "\"" + (PiecesText(p.key) + ("\"" + s3)));
    RunSpaces(Active(frame, m), p.before);
    Run1(Active(frame, m), '"', PiecesText(p.key) + ("\"" + s3));
    RunAppend(Active(frame, InString(true, "", Plain, 0)), PiecesText(p.key), "\"" + s3);
    RunPieces(frame, true, "", p.key);
    assert "" + Decode(p.key).value == Decode(p.key).value;
    Run1(Active(frame, InString(true, Decode(p.key).value, Plain, 0)), '"', s3);
    RunAppend(Active(named, NeedColon), p.beforeColon, ":" + tail);
    RunSpaces(Active(named, NeedColon), p.beforeColon);
    Run1(Active(named, NeedColon), ':', tail);
  }

  lemma {:induction false} RunProps(stack: Stack, m: Mode, done: seq<Entry<Json>>, props: seq<Prop>)
    requires props != [] && WellFormedProps(props) && LegibleProps(props)
    requires m == NeedKey || m == KeyOrClose
    ensures RunFrom(Active(Push(InObject(done, ""), stack), m), PropsText(props))
         == Deliver(stack, Obj(PropValues(done, props)))
    decreases props, 2
  {
    hide RunFrom;
    var p := props[0];
    var k := Decode(p.key).value;
    var tail := if |props| == 1 then "}" else "," + PropsText(props[1..]);
    RunKey(stack, m, done, "", p, p.item.before + (Text(p.item.tree) + (p.item.after + tail)));
    RunItem(Push(InObject(done, k), stack), NeedValue, p.item, tail);
    var next := Put(done, k, Value(p.item.tree));
    var st := Active(Push(InObject(next, ""), stack), AfterValue);
    if |props| == 1 {
      RunOne(st, '}');
      assert PropValues(done, props) == PropValues(next, props[1..]) == next;
    } else {
      Run1(st, ',', PropsText(props[1..]));
      RunProps(stack, NeedKey, next, props[1..]);
    }
  }

  /** Every RFC 8259 text with paired surrogates parses to the value it denotes. */
  lemma ParsesEveryText(before: string, t: Tree, after: string)
    requires WellFormed(t) && Legible(t) && Spaces(before) && Spaces(after)
    ensures Parse(before + (Text(t) + after)) == Some(Value(t))
  {
    hide RunFrom;
    if after == "" {
      assert Text(t) + after == Text(t);
      RunAppend(START, before, Text(t));
      RunSpaces(START, before);
      RunTree(Bottom, NeedValue, t);
    } else {
      RunAppend(START, before, Text(t) + after);
      RunSpaces(START, before);
      RunAppend(START, Text(t), after);
      RunTree(Bottom, NeedValue, t);
      Delimit(RunFrom(START, Text(t)), after);
      RunSpaces(Deliver(Bottom, Value(t)), after);
    }
  }

  /** `parse(dump(j)) == j`. */
  lemma ParseDump(j: Json)
    requires Canonical(j)
    ensures Parse(Dump(j)) == Some(j)
  {
    CompactDenotes(j);
    ParsesEveryText("", Compact(j), "");
    assert "" + (Dump(j) + "") == Dump(j);
  }

  // ---- what the parser builds ----

  /** Everything on the stack is a proper value and fits under `limit` open containers. */
  ghost predicate StackFits(s: Stack, limit: nat)
  {
    match s
    case Bottom => true
    case Push(f, below) =>
      && Height(s) <= limit && StackFits(below, limit)
      && match f
         case InArray(es) => forall e :: e in es ==> Canonical(e) && Height(s) + Nesting(e) <= limit
         case InObject(ms, _) =>
           Sorted(ms) && forall m :: m in ms ==> Canonical(m.val) && Height(s) + Nesting(m.val) <= limit
  }

  ghost predicate Fits(st: State, limit: nat)
  {
    st.Active? ==>
      && StackFits(st.stack, limit) && Height(st.stack) <= limit
      && match st.mode
         case Done(v) => Canonical(v) && Nesting(v) <= limit
         case InNumber(tok, p) => NumTokenPhase(tok) == Some(p)
         case InWord(_, w) => Canonical(w) && Nesting(w) == 0
         case _ => true
  }

  lemma DeliverFits(stack: Stack, v: Json, limit: nat)
    requires StackFits(stack, limit) && Canonical(v) && Height(stack) + Nesting(v) <= limit
    ensures Fits(Deliver(stack, v), limit)
  {
    match stack {
      case Push(InObject(ms, k), _) => PutSorted(ms, k, v); PutKeys(ms, k, v);
      case _ =>
    }
  }

  lemma CloseFits(stack: Stack, c: char, limit: nat)
    requires StackFits(stack, limit)
    ensures Fits(Close(stack, c), limit)
  {
    match stack {
      case Push(InArray(es), below) =>
        NestingElemsBound(es, limit - Height(stack));
        DeliverFits(below, Arr(es), limit);
      case Push(InObject(ms, _), below) =>
        NestingMembersBound(ms, limit - Height(stack));
        DeliverFits(below, Obj(ms), limit);
      case Bottom =>
    }
  }

  lemma {:induction false} NumRunAppend(p: NumPhase, s: string, c: char)
    requires NumRun(p, s).Some?
    ensures NumRun(p, s + [c]) == NumNext(NumRun(p, s).value, c)
    decreases s
  {
    if s == "" {
      assert (s + [c])[1..] == "";
    } else {
      assert (s + [c])[1..] == s[1..] + [c];
      NumRunAppend(NumNext(p, s[0]).value, s[1..], c);
    }
  }

  lemma StepNumberFits(st: State, c: char, limit: nat)
    requires Fits(st, limit) && st.Active? && st.mode.InNumber? && StackHeight(Step(st, c)) <= limit
    ensures Fits(Step(st, c), limit)
  {
    var InNumber(tok, p) := st.mode;
    NumRunAppend(NumStart(tok[0]).value, tok[1..], c);
    assert (tok + [c])[1..] == tok[1..] + [c];
    if NumNext(p, c) == None && NumFinal(p) {
      DeliverFits(st.stack, Num(tok), limit);
      CloseFits(Deliver(st.stack, Num(tok)).stack, c, limit);
    }
  }

  lemma StepFits(st: State, c: char, limit: nat)
    requires Fits(st, limit) && StackHeight(Step(st, c)) <= limit
    ensures Fits(Step(st, c), limit)
  {
    if st.Active? {
      CloseFits(st.stack, c, limit);
      match st.mode {
        case InString(_, text, _, _) => DeliverFits(st.stack, Str(text), limit);
        case InNumber(_, _) => StepNumberFits(st, c, limit);
        case InWord(_, w) => DeliverFits(st.stack, w, limit);
        case _ =>
      }
    }
  }

  lemma {:induction false} RunFits(st: State, s: string, limit: nat)
    requires Fits(st, limit) && Peak(st, s) <= limit
    ensures Fits(RunFrom(st, s), limit)
    decreases s
  {
    if s == "" {
    } else {
      PeakCoversPrefixes(Step(st, s[0]), s[1..], 0);
      StepFits(st, s[0], limit);
      RunFits(Step(st, s[0]), s[1..], limit);
    }
  }

  /** A parsed value is a proper one and nests no deeper than the parser's stack did. */
  lemma ParseFits(s: string, limit: nat)
    requires Parse(s).Some? && Peak(START, s) <= limit
    ensures Canonical(Parse(s).value) && Nesting(Parse(s).value) <= limit
  {
    RunFits(START, s, limit);
    var st := RunFrom(START, s);
    if st.mode.InNumber? && NumFinal(st.mode.phase) {
      DeliverFits(st.stack, Num(st.mode.token), limit);
    }
  }
}
