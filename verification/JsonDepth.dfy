/** The depth guard in front of the JSON parser (common/src/json_util_form.cpp). */
module JsonDepth {
  import opened SortedMaps
  import opened JsonValues
  import opened JsonParser

  const MAX_JSON_PARSE_DEPTH := 128

  // Unsafe: the scan has already returned false.
  datatype Scan = Unsafe | Scanning(depth: int, inString: bool, escapeNext: bool)

  const SCAN_START := Scanning(0, false, false)

  function BracketDelta(c: char): int
  {
    if c == '{' || c == '[' then 1 else if c == '}' || c == ']' then -1 else 0
  }

  function ScanStep(sc: Scan, c: char): Scan
  {
    match sc
    case Unsafe => Unsafe
    case Scanning(d, inString, escapeNext) =>
      if escapeNext then Scanning(d, inString, false)
      else if c == '\\' && inString then Scanning(d, inString, true)
      else if c == '"' then Scanning(d, !inString, false)
      else if inString then sc
      else if 0 <= d + BracketDelta(c) <= MAX_JSON_PARSE_DEPTH then Scanning(d + BracketDelta(c), inString, false)
      else Unsafe
  }

  function ScanFrom(sc: Scan, s: string): Scan
    decreases s
  {
    if s == "" then sc else ScanFrom(ScanStep(sc, s[0]), s[1..])
  }

  predicate DepthSafe(s: string)
  {
    var sc := ScanFrom(SCAN_START, s);
    sc.Scanning? && sc.depth == 0 && !sc.inString
  }

  lemma {:induction false} ScanAppend(sc: Scan, a: string, b: string)
    ensures ScanFrom(sc, a + b) == ScanFrom(ScanFrom(sc, a), b)
    decreases a
  {
    if a == "" {
      assert a + b == b;
    } else {
      assert (a + b)[1..] == a[1..] + b;
      ScanAppend(ScanStep(sc, a[0]), a[1..], b);
    }
  }

  lemma {:induction false} StaysUnsafe(s: string)
    ensures ScanFrom(Unsafe, s) == Unsafe
  {
    if s == "" {
    } else {
      StaysUnsafe(s[1..]);
    }
  }

  lemma ScanPrefix(s: string, i: nat)
    requires i < |s|
    ensures ScanFrom(SCAN_START, s[..i + 1]) == ScanStep(ScanFrom(SCAN_START, s[..i]), s[i])
  {
    assert s[..i + 1] == s[..i] + [s[i]];
    ScanAppend(SCAN_START, s[..i], [s[i]]);
    assert [s[i]][1..] == "";
  }

  lemma StaysUnsafeAfter(s: string, i: nat)
    requires i <= |s| && ScanFrom(SCAN_START, s[..i]) == Unsafe
    ensures !DepthSafe(s)
  {
    assert s == s[..i] + s[i..];
    ScanAppend(SCAN_START, s[..i], s[i..]);
    StaysUnsafe(s[i..]);
  }

  /** The depth is passed by reference; a negative depth is reported and left in place. */
  method UpdateBracketDepth(c: char, currentDepth: int) returns (ok: bool, depth: int)
    ensures depth == currentDepth + if c in {'{', '['} then 1 else if c in {'}', ']'} then -1 else 0
    ensures currentDepth >= 0 ==> (ok <==> depth >= 0)
  {
    depth := currentDepth;
    if c == '{' || c == '[' {
      depth := depth + 1;
    } else if c == '}' || c == ']' {
      depth := depth - 1;
      if depth < 0 {
        return false, depth;
      }
    }
    return true, depth;
  }

  method IsJsonDepthSafe(jsonStr: string) returns (safe: bool)
    ensures safe <==> DepthSafe(jsonStr)
  {
    var currentDepth := 0;
    var inString := false;
    var escapeNext := false;
    for i := 0 to |jsonStr|
      invariant 0 <= currentDepth <= MAX_JSON_PARSE_DEPTH
      invariant ScanFrom(SCAN_START, jsonStr[..i]) == Scanning(currentDepth, inString, escapeNext)
    {
      var c := jsonStr[i];
      ScanPrefix(jsonStr, i);
      if escapeNext {
        escapeNext := false;
        continue;
      }
      if c == '\\' && inString {
        escapeNext := true;
        continue;
      }
      if c == '"' {
        inString := !inString;
        continue;
      }
      if inString {
        continue;
      }
      var ok;
      ok, currentDepth := UpdateBracketDepth(c, currentDepth);
      if !ok || currentDepth > MAX_JSON_PARSE_DEPTH {
        StaysUnsafeAfter(jsonStr, i + 1);
        return false;
      }
    }
    assert jsonStr[..|jsonStr|] == jsonStr;
    return currentDepth == 0 && !inString;
  }

  datatype Outcome = Parsed(value: Json) | Discarded | Thrown

  /** The guard hides a text from the parser exactly when the parser would have failed on it
      or would have opened more than 128 containers. */
  method SafeJsonParse(jsonStr: string, allowExceptions: bool) returns (r: Outcome)
    ensures Parse(jsonStr).Some? && Peak(START, jsonStr) <= MAX_JSON_PARSE_DEPTH ==> r == Parsed(Parse(jsonStr).value)
    ensures !(Parse(jsonStr).Some? && Peak(START, jsonStr) <= MAX_JSON_PARSE_DEPTH) ==> !r.Parsed?
    ensures r.Thrown? <==> allowExceptions && jsonStr != "" && DepthSafe(jsonStr) && Parse(jsonStr) == None
    ensures SafeParse(jsonStr) == if r.Parsed? then Some(r.value) else None
  {
    if jsonStr == "" {
      assert RunFrom(START, jsonStr) == START;
      return Discarded;
    }
    GuardIsExact(jsonStr);
    var safe := IsJsonDepthSafe(jsonStr);
    if !safe {
      return Discarded;
    }
    match Parse(jsonStr) {
      case Some(v) => return Parsed(v);
      case None => return if allowExceptions then Thrown else Discarded;
    }
  }

  function SafeParse(s: string): Option<Json>
  {
    if DepthSafe(s) then Parse(s) else None
  }

  // ---- what the scanner accepts, well formed or not ----

  /** What follows the string literal whose opening quote has just been read. */
  function AfterLiteral(s: string): (r: Option<string>)
    ensures r.Some? ==> |r.value| < |s|
    decreases |s|
  {
    if s == "" then None
    else if s[0] == '"' then Some(s[1..])
    else if s[0] != '\\' then AfterLiteral(s[1..])
    else if |s| == 1 then None
    else AfterLiteral(s[2..])
  }

  /** The bytes outside string literals; None when a literal is not closed. */
  function Outside(s: string): Option<string>
    decreases |s|
  {
    if s == "" then Some("")
    else if s[0] == '"' then
      match AfterLiteral(s[1..]) case None => None case Some(rest) => Outside(rest)
    else
      match Outside(s[1..]) case None => None case Some(t) => Some([s[0]] + t)
  }

  /** Opening brackets minus closing ones. */
  function Balance(t: string): int
  {
    if t == "" then 0
    else (if t[0] in {'{', '['} then 1 else if t[0] in {'}', ']'} then -1 else 0) + Balance(t[1..])
  }

  /** No prefix closes more than is open, or opens more than 128, and in the end all is closed. */
  predicate Balanced(t: string, open: int)
  {
    open + Balance(t) == 0 && forall i :: 0 <= i <= |t| ==> 0 <= open + Balance(t[..i]) <= 128
  }

  lemma BalancedFrom(c: char, t: string, open: int)
    ensures Balanced([c] + t, open) <==> 0 <= open <= 128 && Balanced(t, open + BracketDelta(c))
  {
    var s := [c] + t;
    assert s[1..] == t && s[..0] == "";
    assert forall i :: 0 <= i <= |t| ==> s[..i + 1][1..] == t[..i];
    assert forall i :: 0 <= i <= |t| ==> Balance(s[..i + 1]) == BracketDelta(c) + Balance(t[..i]);
    if Balanced(s, open) {
      assert 0 <= open + Balance(s[..0]) <= 128;
      forall i | 0 <= i <= |t| ensures 0 <= open + BracketDelta(c) + Balance(t[..i]) <= 128 {
        assert 0 <= open + Balance(s[..i + 1]) <= 128;
      }
    }
    if 0 <= open <= 128 && Balanced(t, open + BracketDelta(c)) {
      forall i | 0 <= i <= |s| ensures 0 <= open + Balance(s[..i]) <= 128 {
        if i > 0 { assert 0 <= open + BracketDelta(c) + Balance(t[..i - 1]) <= 128; }
      }
    }
  }

  lemma {:induction false} ScanLiteralRest(d: int, s: string)
    ensures var sc := ScanFrom(Scanning(d, true, false), s);
            match AfterLiteral(s)
            case None => sc.Scanning? && sc.inString
            case Some(rest) => sc == ScanFrom(Scanning(d, false, false), rest)
    decreases |s|
  {
    if s == "" || s[0] == '"' {
    } else if s[0] != '\\' {
      ScanLiteralRest(d, s[1..]);
    } else if |s| == 1 {
      assert s[1..] == "";
    } else {
      assert s[1..][1..] == s[2..];
      ScanLiteralRest(d, s[2..]);
    }
  }

  lemma {:induction false} ScanOutside(d: int, s: string)
    requires 0 <= d <= MAX_JSON_PARSE_DEPTH
    ensures var sc := ScanFrom(Scanning(d, false, false), s);
            (sc.Scanning? && sc.depth == 0 && !sc.inString) <==>
            (Outside(s).Some? && Balanced(Outside(s).value, d))
    decreases |s|
  {
    hide Balanced;
    if s == "" {
      BalancedNothing(d);
    } else if s[0] == '"' {
      ScanLiteralRest(d, s[1..]);
      if AfterLiteral(s[1..]).Some? { ScanOutside(d, AfterLiteral(s[1..]).value); }
    } else {
      var next := d + BracketDelta(s[0]);
      if Outside(s[1..]).Some? { BalancedFrom(s[0], Outside(s[1..]).value, d); }
      if 0 <= next <= MAX_JSON_PARSE_DEPTH {
        ScanOutside(next, s[1..]);
      } else {
        StaysUnsafe(s[1..]);
        if Outside(s[1..]).Some? { NeverBalanced(Outside(s[1..]).value, next); }
      }
    }
  }

  lemma BalancedNothing(open: int)
    ensures Balanced("", open) <==> open == 0
  {
  }

  lemma NeverBalanced(t: string, open: int)
    requires open < 0 || open > 128
    ensures !Balanced(t, open)
  {
    assert t[..0] == "";
  }

  /** On any bytes at all: the guard accepts exactly the texts whose string literals are closed and
      whose brackets outside of them, of either kind, balance within 128. */
  lemma GuardIsBalance(s: string)
    ensures DepthSafe(s) <==> Outside(s).Some? && Balanced(Outside(s).value, 0)
  {
    ScanOutside(0, s);
  }

  // ---- the scanner follows the parser's stack on any bytes ----

  /** The scanner's registers mirror the parser's stack height and string mode. */
  predicate InStep(sc: Scan, st: State)
  {
    && sc.Scanning? && st.Active?
    && sc.depth == Height(st.stack) <= MAX_JSON_PARSE_DEPTH
    && sc.inString == st.mode.InString?
    && sc.escapeNext == (st.mode.InString? && st.mode.esc == Backslash)
    && (st.mode.InWord? ==> forall i :: 0 <= i < |st.mode.rest| ==> 'a' <= st.mode.rest[i] <= 'z')
  }

  /** The two machines agree on one byte. */
  predicate AgreeOn(sc: Scan, next: State)
  {
    next.Active? ==>
      if StackHeight(next) <= MAX_JSON_PARSE_DEPTH then InStep(sc, next) else sc == Unsafe
  }

  lemma DeliverInStep(stack: Stack, v: Json)
    ensures var st := Deliver(stack, v);
            && st.Active? && Height(st.stack) == Height(stack)
            && SkipsSpace(st.mode) && (st.mode.Done? || st.mode.AfterValue?)
  {
  }

  lemma StepStringInStep(sc: Scan, st: State, c: char)
    requires InStep(sc, st) && st.mode.InString?
    ensures AgreeOn(ScanStep(sc, c), Step(st, c))
  {
  }

  lemma CloseInStep(sc: Scan, st: State, c: char)
    requires InStep(sc, st) && !sc.inString && (c == ']' || c == '}')
    ensures AgreeOn(ScanStep(sc, c), Close(st.stack, c))
  {
    match st.stack {
      case Push(InArray(es), below) => DeliverInStep(below, Arr(es));
      case Push(InObject(ms, _), below) => DeliverInStep(below, Obj(ms));
      case Bottom =>
    }
  }

  lemma StepAfterInStep(sc: Scan, st: State, c: char)
    requires InStep(sc, st) && (st.mode.Done? || st.mode.AfterValue?)
    ensures AgreeOn(ScanStep(sc, c), StepAfter(st, c))
  {
    if c == ']' || c == '}' { CloseInStep(sc, st, c); }
  }

  lemma StepNumberInStep(sc: Scan, st: State, c: char)
    requires InStep(sc, st) && st.mode.InNumber?
    ensures AgreeOn(ScanStep(sc, c), Step(st, c))
  {
    var d := Deliver(st.stack, Num(st.mode.token));
    DeliverInStep(st.stack, Num(st.mode.token));
    StepAfterInStep(sc, d, c);
  }

  lemma StepWordInStep(sc: Scan, st: State, c: char)
    requires InStep(sc, st) && st.mode.InWord?
    ensures AgreeOn(ScanStep(sc, c), Step(st, c))
  {
  }

  lemma BeginInStep(sc: Scan, st: State, c: char)
    requires InStep(sc, st) && !sc.inString
    ensures AgreeOn(ScanStep(sc, c), BeginValue(st.stack, c))
  {
  }

  lemma StepInStep(sc: Scan, st: State, c: char)
    requires InStep(sc, st)
    ensures AgreeOn(ScanStep(sc, c), Step(st, c))
  {
    match st.mode {
      case InString(_, _, _, _) => StepStringInStep(sc, st, c);
      case InNumber(_, _) => StepNumberInStep(sc, st, c);
      case InWord(_, _) => StepWordInStep(sc, st, c);
      case AfterValue => StepAfterInStep(sc, st, c);
      case Done(_) => StepAfterInStep(sc, st, c);
      case _ =>
        BeginInStep(sc, st, c);
        if c == ']' || c == '}' { CloseInStep(sc, st, c); }
    }
  }

  lemma {:induction false} RunInStep(sc: Scan, st: State, s: string)
    requires InStep(sc, st) && RunFrom(st, s).Active?
    ensures if Peak(st, s) <= MAX_JSON_PARSE_DEPTH then InStep(ScanFrom(sc, s), RunFrom(st, s))
            else ScanFrom(sc, s) == Unsafe
    decreases s
  {
    if s == "" {
    } else {
      var next := Step(st, s[0]);
      if next.Rejected? { StaysRejected(s[1..]); }
      StepInStep(sc, st, s[0]);
      PeakCoversPrefixes(next, s[1..], 0);
      if StackHeight(next) <= MAX_JSON_PARSE_DEPTH {
        RunInStep(ScanStep(sc, s[0]), next, s[1..]);
      } else {
        StaysUnsafe(s[1..]);
      }
    }
  }

  /** Whatever the bytes, the registers agree with the parser at every prefix it has not rejected. */
  lemma MirrorsStack(s: string, k: nat)
    requires DepthSafe(s) && k <= |s| && RunFrom(START, s[..k]).Active?
    ensures InStep(ScanFrom(SCAN_START, s[..k]), RunFrom(START, s[..k]))
  {
    RunInStep(SCAN_START, START, s[..k]);
    if ScanFrom(SCAN_START, s[..k]) == Unsafe { StaysUnsafeAfter(s, k); }
  }

  lemma {:induction false} PeakOfPrefixes(st: State, s: string, n: nat)
    requires forall k :: 0 <= k <= |s| ==> StackHeight(RunFrom(st, s[..k])) <= n
    ensures Peak(st, s) <= n
    decreases s
  {
    assert RunFrom(st, s[..0]) == st;
    if s == "" {
    } else {
      forall k | 0 <= k < |s| ensures StackHeight(RunFrom(Step(st, s[0]), s[1..][..k])) <= n {
        assert s[..k + 1][1..] == s[1..][..k];
        assert StackHeight(RunFrom(st, s[..k + 1])) <= n;
      }
      PeakOfPrefixes(Step(st, s[0]), s[1..], n);
    }
  }

  /** A text the guard lets through, well formed or not, never makes the parser open more than
      128 containers before it finishes or rejects. */
  lemma GuardBoundsStack(s: string)
    requires DepthSafe(s)
    ensures Peak(START, s) <= MAX_JSON_PARSE_DEPTH
  {
    forall k | 0 <= k <= |s| ensures StackHeight(RunFrom(START, s[..k])) <= MAX_JSON_PARSE_DEPTH {
      if RunFrom(START, s[..k]).Active? { MirrorsStack(s, k); }
    }
    PeakOfPrefixes(START, s, MAX_JSON_PARSE_DEPTH);
  }

  /** `Done` and a pending top-level number only occur with nothing open. */
  ghost predicate DoneAtBottom(st: State)
  {
    st.Active? && st.mode.Done? ==> st.stack == Bottom
  }

  lemma {:induction false} RunDoneAtBottom(st: State, s: string)
    requires DoneAtBottom(st)
    ensures DoneAtBottom(RunFrom(st, s))
    decreases s
  {
    if s == "" {
    } else {
      RunDoneAtBottom(Step(st, s[0]), s[1..]);
    }
  }

  /** Among the texts the parser accepts, the guard lets through exactly the shallow ones. */
  lemma GuardIsExact(s: string)
    ensures Parse(s).Some? ==> (DepthSafe(s) <==> Peak(START, s) <= MAX_JSON_PARSE_DEPTH)
    ensures SafeParse(s).Some? <==> Parse(s).Some? && Peak(START, s) <= MAX_JSON_PARSE_DEPTH
  {
    if Parse(s).Some? {
      RunInStep(SCAN_START, START, s);
      RunDoneAtBottom(START, s);
      var st := RunFrom(START, s);
      assert st.mode.InNumber? ==> st.stack == Bottom;
    }
  }

  // ---- the scanner on the grammar's own texts ----

  /** Outside strings, bytes other than quotes and brackets leave the scan alone. */
  predicate Neutral(c: char) { c != '"' && BracketDelta(c) == 0 }

  lemma {:induction false} ScanNeutral(d: int, s: string)
    requires 0 <= d <= MAX_JSON_PARSE_DEPTH
    requires forall i :: 0 <= i < |s| ==> Neutral(s[i])
    ensures ScanFrom(Scanning(d, false, false), s) == Scanning(d, false, false)
  {
    if s == "" {
    } else {
      ScanNeutral(d, s[1..]);
    }
  }

  lemma {:induction false} NumberNeutral(p: NumPhase, s: string)
    requires NumRun(p, s).Some?
    ensures forall i :: 0 <= i < |s| ==> Neutral(s[i])
    decreases s
  {
    if s == "" {
    } else {
      NumberNeutral(NumNext(p, s[0]).value, s[1..]);
    }
  }

  lemma Scan1(sc: Scan, c: char, r: string)
    ensures ScanFrom(sc, [c] + r) == ScanFrom(ScanStep(sc, c), r)
  {
  }

  lemma ScanNone(d: int)
    ensures ScanFrom(Scanning(d, false, false), "") == Scanning(d, false, false)
  {
  }

  lemma ScanOne(sc: Scan, c: char)
    ensures ScanFrom(sc, [c]) == ScanStep(sc, c)
  {
  }

  lemma {:induction false} ScanInside(d: int, s: string)
    requires forall i :: 0 <= i < |s| ==> s[i] != '"' && s[i] != '\\'
    ensures ScanFrom(Scanning(d, true, false), s) == Scanning(d, true, false)
  {
    if s == "" {
    } else {
      ScanInside(d, s[1..]);
    }
  }

  /** Quotes and brackets inside a string literal, escaped or not, do not count. */
  lemma {:induction false} ScanPieces(d: int, ps: seq<Piece>)
    requires ValidPieces(ps)
    ensures ScanFrom(Scanning(d, true, false), PiecesText(ps)) == Scanning(d, true, false)
    decreases |ps|
  {
    if ps == [] {
    } else {
      var p := ps[0];
      assert p in ps;
      ScanAppend(Scanning(d, true, false), PieceText(p), PiecesText(ps[1..]));
      match p {
        case Raw(c) => ScanInside(d, [c]);
        case Short(e) =>
          Scan1(Scanning(d, true, false), '\\', [e]);
          ScanOne(Scanning(d, true, true), e);
        case Unicode(h) =>
          assert ['\\', 'u'] + h == ['\\'] + (['u'] + h);
          Scan1(Scanning(d, true, false), '\\', ['u'] + h);
          Scan1(Scanning(d, true, true), 'u', h);
          ScanInside(d, h);
      }
      ScanPieces(d, ps[1..]);
    }
  }

  lemma ScanString(d: int, ps: seq<Piece>, r: string)
    requires 0 <= d <= MAX_JSON_PARSE_DEPTH && ValidPieces(ps)
    ensures ScanFrom(Scanning(d, false, false), "\"" + (PiecesText(ps) + ("\"" + r)))
         == ScanFrom(Scanning(d, false, false), r)
  {
    hide ScanFrom;
    Scan1(Scanning(d, false, false), '"', PiecesText(ps) + ("\"" + r));
    ScanAppend(Scanning(d, true, false), PiecesText(ps), "\"" + r);
    ScanPieces(d, ps);
    Scan1(Scanning(d, true, false), '"', r);
  }

  lemma ScanSpaces(d: int, ws: string, r: string)
    requires 0 <= d <= MAX_JSON_PARSE_DEPTH && Spaces(ws)
    ensures ScanFrom(Scanning(d, false, false), ws + r) == ScanFrom(Scanning(d, false, false), r)
  {
    ScanAppend(Scanning(d, false, false), ws, r);
    ScanNeutral(d, ws);
  }

  /** What scanning a text of depth `n` does from depth `d`. */
  function Through(d: int, n: nat): Scan
  {
    if d + n <= MAX_JSON_PARSE_DEPTH then Scanning(d, false, false) else Unsafe
  }

  lemma ScanEmpty(d: int, open: char, gap: string, close: char)
    requires 0 <= d <= MAX_JSON_PARSE_DEPTH && Spaces(gap)
    requires (open == '[' && close == ']') || (open == '{' && close == '}')
    ensures ScanFrom(Scanning(d, false, false), [open] + (gap + [close])) == Through(d, 1)
  {
    hide ScanFrom;
    Scan1(Scanning(d, false, false), open, gap + [close]);
    if d == MAX_JSON_PARSE_DEPTH {
      StaysUnsafe(gap + [close]);
    } else {
      ScanSpaces(d + 1, gap, [close]);
      ScanOne(Scanning(d + 1, false, false), close);
    }
  }

  lemma ScanLiteral(d: int, w: Word)
    requires 0 <= d <= MAX_JSON_PARSE_DEPTH
    ensures ScanFrom(Scanning(d, false, false), WordText(w)) == Scanning(d, false, false)
  {
    ScanNeutral(d, WordText(w));
  }

  lemma ScanNumber(d: int, tok: string)
    requires 0 <= d <= MAX_JSON_PARSE_DEPTH && ValidNumber(tok)
    ensures ScanFrom(Scanning(d, false, false), tok) == Scanning(d, false, false)
  {
    NumberNeutral(NumStart(tok[0]).value, tok[1..]);
    ScanNeutral(d, tok);
  }

  lemma {:induction false} ScanTree(d: int, t: Tree)
    requires 0 <= d <= MAX_JSON_PARSE_DEPTH && WellFormed(t)
    ensures ScanFrom(Scanning(d, false, false), Text(t)) == Through(d, Depth(t))
    decreases t, 0
  {
    hide ScanFrom;
    match t {
      case Literal(w) => ScanLiteral(d, w);
      case Number(tok) => ScanNumber(d, tok);
      case String(ps) =>
        ScanString(d, ps, "");
        ScanNone(d);
        assert "\"" + "" == "\"";
      case Array(gap, items) =>
        if items == [] {
          ScanEmpty(d, '[', gap, ']');
        } else {
          Scan1(Scanning(d, false, false), '[', ItemsText(items));
          if d < MAX_JSON_PARSE_DEPTH { ScanItems(d + 1, items); } else { StaysUnsafe(ItemsText(items)); }
        }
      case Object(gap, props) =>
        if props == [] {
          ScanEmpty(d, '{', gap, '}');
        } else {
          Scan1(Scanning(d, false, false), '{', PropsText(props));
          if d < MAX_JSON_PARSE_DEPTH { ScanProps(d + 1, props); } else { StaysUnsafe(PropsText(props)); }
        }
    }
  }

  lemma {:induction false} ScanItem(d: int, i: Item, tail: string)
    requires 0 <= d <= MAX_JSON_PARSE_DEPTH
    requires Spaces(i.before) && Spaces(i.after) && WellFormed(i.tree)
    ensures ScanFrom(Scanning(d, false, false), i.before + (Text(i.tree) + (i.after + tail)))
         == ScanFrom(Through(d, Depth(i.tree)), tail)
    decreases i, 1
  {
    hide ScanFrom;
    ScanSpaces(d, i.before, Text(i.tree) + (i.after + tail));
    ScanAppend(Scanning(d, false, false), Text(i.tree), i.after + tail);
    ScanTree(d, i.tree);
    if d + Depth(i.tree) <= MAX_JSON_PARSE_DEPTH {
      ScanSpaces(d, i.after, tail);
    } else {
      StaysUnsafe(i.after + tail);
      StaysUnsafe(tail);
    }
  }

  lemma {:induction false} ScanItems(d: int, items: seq<Item>)
    requires 0 < d <= MAX_JSON_PARSE_DEPTH && items != [] && WellFormedItems(items)
    ensures ScanFrom(Scanning(d, false, false), ItemsText(items)) == Through(d - 1, 1 + DepthItems(items))
    decreases items, 2
  {
    hide ScanFrom, Text, Depth, WellFormed;
    var tail := if |items| == 1 then "]" else "," + ItemsText(items[1..]);
    ScanItem(d, items[0], tail);
    assert DepthItems(items) == Max(Depth(items[0].tree), DepthItems(items[1..]));
    if d + Depth(items[0].tree) > MAX_JSON_PARSE_DEPTH {
      StaysUnsafe(tail);
    } else if |items| == 1 {
      ScanOne(Scanning(d, false, false), ']');
    } else {
      Scan1(Scanning(d, false, false), ',', ItemsText(items[1..]));
      ScanItems(d, items[1..]);
    }
  }

  lemma ScanKey(d: int, p: Prop, tail: string)
    requires 0 <= d <= MAX_JSON_PARSE_DEPTH
    requires Spaces(p.before) && ValidPieces(p.key) && Spaces(p.beforeColon)
    ensures ScanFrom(Scanning(d, false, false),
                     p.before + ("\"" + (PiecesText(p.key) + ("\"" + (p.beforeColon + (":" + tail))))))
         == ScanFrom(Scanning(d, false, false), tail)
  {
    hide ScanFrom;
    ScanSpaces(d, p.before, "\"" + (PiecesText(p.key) + ("\"" + (p.beforeColon + (":" + tail)))));
    ScanString(d, p.key, p.beforeColon + (":" + tail));
    ScanSpaces(d, p.beforeColon, ":" + tail);
    Scan1(Scanning(d, false, false), ':', tail);
  }

  function PropsTail(props: seq<Prop>): string
    requires props != []
  {
    if |props| == 1 then "}" else "," + PropsText(props[1..])
  }

  lemma {:induction false} ScanProp(d: int, props: seq<Prop>)
    requires 0 <= d <= MAX_JSON_PARSE_DEPTH && props != [] && WellFormedProps(props)
    ensures ScanFrom(Scanning(d, false, false), PropsText(props))
         == ScanFrom(Through(d, Depth(props[0].item.tree)), PropsTail(props))
    decreases props, 1
  {
    hide ScanFrom;
    var p := props[0];
    ScanKey(d, p, p.item.before + (Text(p.item.tree) + (p.item.after + PropsTail(props))));
    ScanItem(d, p.item, PropsTail(props));
  }

  lemma {:induction false} ScanProps(d: int, props: seq<Prop>)
    requires 0 < d <= MAX_JSON_PARSE_DEPTH && props != [] && WellFormedProps(props)
    ensures ScanFrom(Scanning(d, false, false), PropsText(props)) == Through(d - 1, 1 + DepthProps(props))
    decreases props, 2
  {
    hide ScanFrom, Text, PiecesText, Depth, WellFormed;
    ScanProp(d, props);
    if d + Depth(props[0].item.tree) > MAX_JSON_PARSE_DEPTH {
      StaysUnsafe(PropsTail(props));
    } else if |props| == 1 {
      ScanOne(Scanning(d, false, false), '}');
    } else {
      Scan1(Scanning(d, false, false), ',', PropsText(props[1..]));
      ScanProps(d, props[1..]);
    }
  }

  /** On any RFC 8259 text the guard measures nesting exactly. */
  lemma GuardMeasuresDepth(before: string, t: Tree, after: string)
    requires WellFormed(t) && Spaces(before) && Spaces(after)
    ensures DepthSafe(before + (Text(t) + after)) <==> Depth(t) <= MAX_JSON_PARSE_DEPTH
  {
    hide ScanFrom;
    ScanSpaces(0, before, Text(t) + after);
    ScanAppend(SCAN_START, Text(t), after);
    ScanTree(0, t);
    if Depth(t) <= MAX_JSON_PARSE_DEPTH {
      ScanNeutral(0, after);
    } else {
      StaysUnsafe(after);
    }
  }

  /** The guard is transparent on shallow texts and total on deep ones. */
  lemma SafeParseOfText(before: string, t: Tree, after: string)
    requires WellFormed(t) && Legible(t) && Spaces(before) && Spaces(after)
    ensures SafeParse(before + (Text(t) + after)) == if Depth(t) <= MAX_JSON_PARSE_DEPTH then Some(Value(t)) else None
  {
    GuardMeasuresDepth(before, t, after);
    ParsesEveryText(before, t, after);
  }

  lemma SafeParseOfDump(j: Json)
    requires Canonical(j)
    ensures SafeParse(Dump(j)) == if Nesting(j) <= MAX_JSON_PARSE_DEPTH then Some(j) else None
  {
    CompactDenotes(j);
    SafeParseOfText("", Compact(j), "");
    assert "" + (Dump(j) + "") == Dump(j);
  }

  /** Values that pass the guard are proper and shallow. */
  lemma SafeParseFits(s: string)
    requires SafeParse(s).Some?
    ensures Canonical(SafeParse(s).value) && Nesting(SafeParse(s).value) <= MAX_JSON_PARSE_DEPTH
  {
    GuardIsExact(s);
    ParseFits(s, MAX_JSON_PARSE_DEPTH);
  }

  // ---- texts that were cut ----

  lemma {:induction false} AfterDoneOnlySpaces(v: Json, s: string)
    requires RunFrom(Active(Bottom, Done(v)), s).Active?
    ensures Spaces(s)
    decreases s
  {
    var st := Active(Bottom, Done(v));
    if s == "" {
    } else {
      if !IsSpace(s[0]) { StaysRejected(s[1..]); }
      AfterDoneOnlySpaces(v, s[1..]);
      assert forall i :: 0 < i < |s| ==> s[i] == s[1..][i - 1];
    }
  }

  lemma {:induction false} LastOfItems(items: seq<Item>)
    requires items != []
    ensures ItemsText(items) != "" && ItemsText(items)[|ItemsText(items)| - 1] == ']'
    decreases |items|
  {
    hide Text;
    if |items| == 1 {
    } else {
      LastOfItems(items[1..]);
    }
  }

  lemma {:induction false} LastOfProps(props: seq<Prop>)
    requires props != []
    ensures PropsText(props) != "" && PropsText(props)[|PropsText(props)| - 1] == '}'
    decreases |props|
  {
    hide Text, PiecesText;
    if |props| == 1 {
    } else {
      LastOfProps(props[1..]);
    }
  }

  lemma DumpEndsSolid(j: Json)
    requires !j.Num?
    ensures Dump(j) != "" && !IsSpace(Dump(j)[|Dump(j)| - 1])
  {
    hide PiecesText, PropsText, ItemsText;
    match Compact(j) {
      case Array(_, items) => if items != [] { LastOfItems(items); }
      case Object(_, props) => if props != [] { LastOfProps(props); }
      case _ =>
    }
  }

  lemma {:induction false} NumRunPrefix(p: NumPhase, s: string, n: nat)
    requires n <= |s| && NumRun(p, s).Some?
    ensures NumRun(p, s[..n]).Some?
    decreases n
  {
    if n == 0 {
    } else {
      NumRunPrefix(NumNext(p, s[0]).value, s[1..], n - 1);
      assert s[..n][1..] == s[1..][..n - 1];
    }
  }

  lemma CutNumber(tok: string, n: nat)
    requires ValidNumber(tok) && n < |tok|
    ensures Parse(tok[..n]) != Some(Num(tok))
  {
    if n == 0 {
      assert RunFrom(START, "") == START;
    } else {
      var p := tok[..n];
      NumRunPrefix(NumStart(tok[0]).value, tok[1..], n - 1);
      assert p[1..] == tok[1..][..n - 1] && p == [p[0]] + p[1..];
      Run1(START, p[0], p[1..]);
      RunDigits(Bottom, [p[0]], NumStart(p[0]).value, p[1..]);
    }
  }

  /** A printed value of which only a part arrives is never read as that value. */
  lemma CutDumpNeverParsesBack(j: Json, n: nat)
    requires Canonical(j) && n < |Dump(j)|
    ensures Parse(Dump(j)[..n]) != Some(j)
  {
    hide RunFrom;
    var (p, q) := (Dump(j)[..n], Dump(j)[n..]);
    if j.Num? {
      CutNumber(j.token, n);
    } else if Parse(p) == Some(j) {
      ParseDump(j);
      RunDoneAtBottom(START, p);
      assert RunFrom(START, p) == Active(Bottom, Done(j));
      assert p + q == Dump(j) && q[|q| - 1] == Dump(j)[|Dump(j)| - 1];
      DumpEndsSolid(j);
      RunAppend(START, p, q);
      AfterDoneOnlySpaces(j, q);
    }
  }
}
