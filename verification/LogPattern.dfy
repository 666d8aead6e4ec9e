/**
 The pattern language of log formatters: its tokens, what a pattern means when it is
 read from left to right, and the list of items it compiles to.
 */
module LogPattern {
  import opened Basics

  /** The single-letter directives other than the date, in the order of the source's table. */
  datatype Directive =
    | Message | Level | Elapse | LoggerName | ThreadId | NewLine
    | FileName | Line | Tab | FiberId | ThreadName

  datatype Item = Text(text: string) | Field(d: Directive) | Time(format: string)

  /** What an event supplies to the items that depend on it. */
  datatype Event = Event(field: Directive -> string, time: string -> string)

  const DEFAULT_TIME := "%Y-%m-%d %H:%M:%S"

  function Letter(d: Directive): char {
    match d
    case Message => 'm' case Level => 'p' case Elapse => 'r' case LoggerName => 'c' case ThreadId => 't'
    case NewLine => 'n' case FileName => 'f' case Line => 'l' case Tab => 'T' case FiberId => 'F'
    case ThreadName => 'N'
  }

  /** The item table, without its entry for the date. */
  function LookUp(c: char): (r: Option<Directive>)
    ensures r.Some? ==> Letter(r.value) == c
    ensures r.None? ==> forall d :: Letter(d) != c
  {
    match c
    case 'm' => Some(Message) case 'p' => Some(Level) case 'r' => Some(Elapse) case 'c' => Some(LoggerName)
    case 't' => Some(ThreadId) case 'n' => Some(NewLine) case 'f' => Some(FileName) case 'l' => Some(Line)
    case 'T' => Some(Tab) case 'F' => Some(FiberId) case 'N' => Some(ThreadName)
    case _ => None
  }

  /** The table, letter by letter; every other letter is unknown, the date's and the percent sign aside. */
  lemma ItemTable()
    ensures [LookUp('m'), LookUp('p'), LookUp('r'), LookUp('c')] == [Some(Message), Some(Level), Some(Elapse), Some(LoggerName)]
    ensures [LookUp('t'), LookUp('n'), LookUp('f'), LookUp('l')] == [Some(ThreadId), Some(NewLine), Some(FileName), Some(Line)]
    ensures [LookUp('T'), LookUp('F'), LookUp('N')] == [Some(Tab), Some(FiberId), Some(ThreadName)]
    ensures forall c :: LookUp(c).None? <==> c !in "mprctnflTFN"
  {
  }

  /** An empty time format stands for the default one. */
  function TimeItem(format: string): Item {
    Time(if format == "" then DEFAULT_TIME else format)
  }

  function RenderItem(it: Item, ev: Event): string {
    match it
    case Text(t) => t
    case Field(NewLine) => "\n"
    case Field(Tab) => "\t"
    case Field(d) => ev.field(d)
    case Time(f) => ev.time(f)
  }

  /** What running a list of items on an event writes. */
  function Render(items: seq<Item>, ev: Event): string {
    if items == [] then "" else RenderItem(items[0], ev) + Render(items[1..], ev)
  }

  // ------------------------------------------------------------------
  // Tokens
  // ------------------------------------------------------------------

  datatype Token =
    | Lit(c: char)              // a character, or %%
    | Dir(d: Directive)         // % and a known letter
    | Date(format: string)      // %d{format}
    | BareDate                  // %d before something other than a brace
    | FinalDate                 // %d at the very end
    | LonePercent               // % at the very end
    | Unknown(u: char)          // % and an unknown letter
    | OpenAtEnd                 // %d{ at the very end
    | Unclosed(tail: string)    // %d{ and a tail without a closing brace
  {
    predicate Bad() { LonePercent? || Unknown? || OpenAtEnd? || Unclosed? }

    /** The item that the token adds, if any. */
    function Emits(): Option<Item> {
      match this
      case Lit(_) => None
      case Dir(d) => Some(Field(d))
      case Date(f) => Some(TimeItem(f))
      case BareDate => Some(TimeItem(""))
      case FinalDate => None
      case LonePercent => Some(Text("<error format %>"))
      case Unknown(u) => Some(Text("<error format %" + [u] + ">"))
      case OpenAtEnd => Some(Text("<error format %d{ >"))
      case Unclosed(tail) => Some(Text("<error format %d{" + tail + " >"))
    }

    /**
     The text that the token stands for: %n a line break, %T a tab, any other letter what
     the event has for it, a date the time in its format or in the default one. A final %d
     is a date like any other. An error stands for a notice that quotes what was read.
     */
    function Means(ev: Event): string {
      match this
      case Lit(c) => [c]
      case Dir(NewLine) => "\n"
      case Dir(Tab) => "\t"
      case Dir(d) => ev.field(d)
      case Date(f) => ev.time(if f == "" then "%Y-%m-%d %H:%M:%S" else f)
      case BareDate => ev.time("%Y-%m-%d %H:%M:%S")
      case FinalDate => ev.time("%Y-%m-%d %H:%M:%S")
      case LonePercent => "<error format %>"
      case Unknown(u) => "<error format %" + [u] + ">"
      case OpenAtEnd => "<error format %d{ >"
      case Unclosed(tail) => "<error format %d{" + tail + " >"
    }
  }

  /** What the item of a token writes is what the token stands for. */
  lemma EmitsMeaning(t: Token, ev: Event)
    requires t.Emits().Some?
    ensures RenderItem(t.Emits().value, ev) == t.Means(ev)
  {
  }

  /** The first closing brace at or after `i`, or the length. */
  function Close(p: string, i: nat): (k: nat)
    requires i <= |p|
    ensures i <= k <= |p|
    ensures k < |p| ==> p[k] == '}'
    ensures forall j :: i <= j < k ==> p[j] != '}'
    decreases |p| - i
  {
    if i == |p| || p[i] == '}' then i else Close(p, i + 1)
  }

  /** The token at position `i`, and the position at which reading goes on. */
  function Next(p: string, i: nat): (r: (Token, nat))
    requires i < |p|
    ensures i < r.1 <= |p|
  {
    if p[i] != '%' then (Lit(p[i]), i + 1)
    else if i + 1 == |p| then (LonePercent, i + 1)
    else if p[i + 1] == '%' then (Lit('%'), i + 2)
    else if p[i + 1] != 'd' then
      match LookUp(p[i + 1])
      case None => (Unknown(p[i + 1]), i + 2)
      case Some(d) => (Dir(d), i + 2)
    else NextDate(p, i)
  }

  function NextDate(p: string, i: nat): (r: (Token, nat))
    requires i + 1 < |p|
    ensures i < r.1 <= |p|
  {
    if i + 2 == |p| then (FinalDate, i + 2)
    else if p[i + 2] != '{' then (BareDate, i + 2)
    else if i + 3 == |p| then (OpenAtEnd, i + 3)
    else
      var k := Close(p, i + 3);
      // Without a closing brace, one character is skipped and the rest is read again.
      if k == |p| then (Unclosed(p[i + 3..]), i + 4) else (Date(p[i + 3..k]), k + 1)
  }

  function Lex(p: string, i: nat): (ts: seq<Token>)
    requires i <= |p|
    decreases |p| - i
  {
    if i == |p| then [] else
    var (t, n) := Next(p, i);
    [t] + Lex(p, n)
  }

  lemma LexFirst(p: string, i: nat)
    requires i < |p|
    ensures Lex(p, i) == [Next(p, i).0] + Lex(p, Next(p, i).1)
  {
  }

  function Tokens(p: string): seq<Token> { Lex(p, 0) }

  ghost predicate AnyBad(ts: seq<Token>) {
    exists k :: 0 <= k < |ts| && ts[k].Bad()
  }

  /** Reading a pattern from left to right, token by token. */
  function Meaning(ts: seq<Token>, ev: Event): string {
    if ts == [] then "" else ts[0].Means(ev) + Meaning(ts[1..], ev)
  }

  // ------------------------------------------------------------------
  // Compilation
  // ------------------------------------------------------------------

  /** The items of a token list, and the literal text still pending at its end. */
  datatype Assembly = Assembly(items: seq<Item>, pending: string)

  function Flush(str: string): seq<Item> {
    if str == "" then [] else [Text(str)]
  }

  /** The items that the token `t` appends when the text `str` is pending. */
  function Step(str: string, t: Token): Assembly {
    match t
    case Lit(c) => Assembly([], str + [c])
    case LonePercent => Assembly([Text("<error format %>")], str)
    case FinalDate => Assembly(Flush(str), "")
    case _ => Assembly(Flush(str) + [t.Emits().value], "")
  }

  function Assemble(str: string, ts: seq<Token>): Assembly
    decreases |ts|
  {
    if ts == [] then Assembly([], str) else
    var a := Step(str, ts[0]);
    var b := Assemble(a.pending, ts[1..]);
    Assembly(a.items + b.items, b.pending)
  }

  function Compile(p: string): Assembly { Assemble("", Tokens(p)) }

  lemma AssembleFirst(str: string, t: Token, ts: seq<Token>)
    ensures var a := Step(str, t);
            var b := Assemble(a.pending, ts);
            Assemble(str, [t] + ts) == Assembly(a.items + b.items, b.pending)
  {
    assert ([t] + ts)[1..] == ts;
  }

  lemma {:induction false} AssembleConcat(str: string, a: seq<Token>, b: seq<Token>)
    ensures var x := Assemble(str, a);
            var y := Assemble(x.pending, b);
            Assemble(str, a + b) == Assembly(x.items + y.items, y.pending)
    decreases |a|
  {
    hide Step;
    if a == [] {
      assert a + b == b;
    } else {
      var s := Step(str, a[0]);
      AssembleConcat(s.pending, a[1..], b);
      assert (a + b)[1..] == a[1..] + b;
      var x := Assemble(s.pending, a[1..]);
      Assoc(s.items, x.items, Assemble(x.pending, b).items);
    }
  }

  lemma {:induction false} RenderConcat(a: seq<Item>, b: seq<Item>, ev: Event)
    ensures Render(a + b, ev) == Render(a, ev) + Render(b, ev)
  {
    hide RenderItem;
    if a == [] {
      assert a + b == b;
    } else {
      RenderConcat(a[1..], b, ev);
      assert (a + b)[1..] == a[1..] + b;
      Assoc(RenderItem(a[0], ev), Render(a[1..], ev), Render(b, ev));
    }
  }

  /** A pattern is complete when it is empty or ends in a directive other than a bare %d. */
  ghost predicate Complete(ts: seq<Token>) {
    ts == [] || !(ts[|ts| - 1].Lit? || ts[|ts| - 1].FinalDate?)
  }

  /** Only the last token of a list that a pattern gives can be one of those bound to the end. */
  ghost predicate EndTokensLast(ts: seq<Token>) {
    forall k :: 0 <= k < |ts| - 1 ==> !ts[k].FinalDate? && !ts[k].LonePercent? && !ts[k].OpenAtEnd?
  }

  lemma {:induction false} LexEndTokens(p: string, i: nat)
    requires i <= |p|
    ensures EndTokensLast(Lex(p, i))
    decreases |p| - i
  {
    if i < |p| {
      LexEndTokens(p, Next(p, i).1);
    }
  }

  lemma RenderFlush(str: string, t: Token, ev: Event)
    requires !t.Bad() && !t.Lit?
    ensures Render(Step(str, t).items, ev) + (if t.FinalDate? then ev.time(DEFAULT_TIME) else "") == str + t.Means(ev)
  {
    RenderText(str, ev);
    if !t.FinalDate? {
      var it := t.Emits().value;
      RenderOne(it, ev);
      RenderConcat(Flush(str), [it], ev);
      hide Render, RenderItem, Flush;
    }
  }

  lemma RenderText(str: string, ev: Event)
    ensures Render(Flush(str), ev) == str
  {
  }

  lemma RenderOne(it: Item, ev: Event)
    ensures Render([it], ev) == RenderItem(it, ev)
  {
    assert Render([it], ev) == RenderItem(it, ev) + Render([], ev);
  }

  /** What the compiled items fail to write: a final bare %d, or the pending literal text. */
  function Lost(ts: seq<Token>, pending: string, ev: Event): string {
    if ts != [] && ts[|ts| - 1].FinalDate? then ev.time(DEFAULT_TIME) else pending
  }

  /**
   Interpreting tokens writes what the compiled items write, plus what compilation loses.
   */
  lemma {:induction false} AssembleMeans(str: string, ts: seq<Token>, ev: Event)
    requires !AnyBad(ts) && EndTokensLast(ts)
    ensures var a := Assemble(str, ts);
            str + Meaning(ts, ev) == Render(a.items, ev) + Lost(ts, a.pending, ev)
    decreases |ts|
  {
    if ts != [] {
      var t, rest, s := ts[0], ts[1..], Step(str, ts[0]);
      GoodRest(ts);
      if t.FinalDate? {
        assert rest == [];
        RenderFlush(str, t, ev);
        assert s.items + [] == s.items;
      } else {
        var b := Assemble(s.pending, rest);
        assert Lost(ts, b.pending, ev) == Lost(rest, b.pending, ev);
        assert Assemble(str, ts) == Assembly(s.items + b.items, b.pending);
        assert Meaning(ts, ev) == t.Means(ev) + Meaning(rest, ev);
        hide Step, Render, EndTokensLast, AnyBad, Assemble, Meaning, Lost;
        AssembleMeans(s.pending, rest, ev);
        StepMeans(str, t, Meaning(rest, ev), ev);
        RenderConcat(s.items, b.items, ev);
        Assoc(Render(s.items, ev), Render(b.items, ev), Lost(rest, b.pending, ev));
      }
    }
  }

  lemma GoodRest(ts: seq<Token>)
    requires ts != [] && !AnyBad(ts) && EndTokensLast(ts)
    ensures !ts[0].Bad() && !AnyBad(ts[1..]) && EndTokensLast(ts[1..])
  {
    forall k | 0 <= k < |ts| - 1 ensures !ts[1..][k].Bad() { assert ts[1..][k] == ts[k + 1]; }
  }

  lemma StepMeans(str: string, t: Token, tail: string, ev: Event)
    requires !t.Bad() && !t.FinalDate?
    ensures var s := Step(str, t);
            str + (t.Means(ev) + tail) == Render(s.items, ev) + (s.pending + tail)
  {
    StepPending(str, t, ev);
    if !t.Lit? {
      RenderFlush(str, t, ev);
    }
    hide Render, Step;
    Assoc(str, t.Means(ev), tail);
    assert "" + tail == tail && "" + (str + t.Means(ev) + tail) == str + t.Means(ev) + tail;
  }

  lemma StepPending(str: string, t: Token, ev: Event)
    requires !t.Bad() && !t.FinalDate?
    ensures var s := Step(str, t);
            if t.Lit? then Render(s.items, ev) == "" && s.pending == str + t.Means(ev) else s.pending == ""
  {
  }

  /**
   A pattern without errors: what its items write is what it means, up to the
   literal text pending at the end or a final bare %d, which are lost.
   */
  lemma MeaningUpToEnd(p: string, ev: Event)
    requires !AnyBad(Tokens(p))
    ensures Meaning(Tokens(p), ev) ==
            Render(Compile(p).items, ev) + Lost(Tokens(p), Compile(p).pending, ev)
  {
    LexEndTokens(p, 0);
    AssembleMeans("", Tokens(p), ev);
  }

  // ------------------------------------------------------------------
  // Exactness
  // ------------------------------------------------------------------

  lemma {:induction false} PendingAtEnd(str: string, ts: seq<Token>)
    requires !AnyBad(ts)
    ensures Assemble(str, ts).pending == "" <==> if ts == [] then str == "" else !ts[|ts| - 1].Lit?
    decreases |ts|
  {
    if ts != [] {
      assert !ts[0].Bad();
      forall k | 0 <= k < |ts| - 1 ensures !ts[1..][k].Bad() { assert ts[1..][k] == ts[k + 1]; }
      PendingAtEnd(Step(str, ts[0]).pending, ts[1..]);
    }
  }

  /** On an error-free pattern, running the items says what the pattern means exactly when it is complete. */
  lemma MeaningExact(p: string)
    requires !AnyBad(Tokens(p))
    ensures (forall ev: Event :: Render(Compile(p).items, ev) == Meaning(Tokens(p), ev)) <==> Complete(Tokens(p))
  {
    PendingAtEnd("", Tokens(p));
    forall ev: Event ensures Complete(Tokens(p)) ==> Render(Compile(p).items, ev) == Meaning(Tokens(p), ev) {
      MeaningUpToEnd(p, ev);
    }
    if !Complete(Tokens(p)) {
      var ev := Event(_ => "", _ => "now");
      MeaningUpToEnd(p, ev);
      assert |Meaning(Tokens(p), ev)| > |Render(Compile(p).items, ev)|;
    }
  }

  // A grammar for error-free patterns: concatenations of well-formed tokens.

  function PrintToken(t: Token): string
    requires !t.Bad()
  {
    match t
    case Lit(c) => if c == '%' then "%%" else [c]
    case Dir(d) => ['%', Letter(d)]
    case Date(f) => ['%', 'd', '{'] + f + ['}']
    case BareDate => ['%', 'd']
    case FinalDate => ['%', 'd']
  }

  /** `t` can be written, and read back, in front of the tokens `rest`. */
  ghost predicate Fits(t: Token, rest: seq<Token>) {
    && !t.Bad()
    && (t.Date? ==> '}' !in t.format)
    && (t.BareDate? ==> rest != [] && rest[0] != Lit('{'))
    && (t.FinalDate? ==> rest == [])
  }

  ghost predicate WellFormed(ts: seq<Token>) {
    ts == [] || (Fits(ts[0], ts[1..]) && WellFormed(ts[1..]))
  }

  ghost predicate HasFinalDate(ts: seq<Token>) {
    ts != [] && (ts[0].FinalDate? || HasFinalDate(ts[1..]))
  }

  function Print(ts: seq<Token>): string
    requires WellFormed(ts)
  {
    if ts == [] then "" else PrintToken(ts[0]) + Print(ts[1..])
  }

  lemma {:induction false} WellFormedIsGood(ts: seq<Token>)
    requires WellFormed(ts)
    ensures !AnyBad(ts)
  {
    if ts != [] {
      WellFormedIsGood(ts[1..]);
      forall k | 0 <= k < |ts| ensures !ts[k].Bad() { if k > 0 { assert ts[k] == ts[1..][k - 1]; } }
    }
  }

  lemma CloseIs(p: string, i: nat, k: nat)
    requires i <= k < |p| && p[k] == '}' && forall j :: i <= j < k ==> p[j] != '}'
    ensures Close(p, i) == k
  {
  }

  lemma FirstPrinted(ts: seq<Token>)
    requires WellFormed(ts) && ts != [] && ts[0] != Lit('{')
    ensures |Print(ts)| > 0 && Print(ts)[0] != '{'
  {
  }

  /** The text `w` stands at position `i` of `p`. */
  ghost predicate At(p: string, i: nat, w: string) {
    i + |w| <= |p| && forall j :: 0 <= j < |w| ==> p[i + j] == w[j]
  }

  lemma AtConcat(p: string, i: nat, v: string, w: string)
    requires At(p, i, v + w)
    ensures At(p, i, v) && At(p, i + |v|, w)
  {
    forall j | 0 <= j < |v| ensures p[i + j] == v[j] { assert (v + w)[j] == v[j]; }
    forall j | 0 <= j < |w| ensures p[i + |v| + j] == w[j] { assert p[i + (|v| + j)] == (v + w)[|v| + j]; }
  }

  lemma NextDatePrinted(p: string, i: nat, f: string)
    requires At(p, i, ['%', 'd', '{'] + f + ['}']) && '}' !in f
    ensures NextDate(p, i) == (Date(f), i + |f| + 4)
  {
    var w := ['%', 'd', '{'] + f + ['}'];
    assert p[i + 2] == w[2];
    forall j | i + 3 <= j < i + 3 + |f| ensures p[j] == f[j - i - 3] { assert p[i + (j - i)] == w[j - i]; }
    assert p[i + (3 + |f|)] == w[3 + |f|];
    CloseIs(p, i + 3, i + 3 + |f|);
    assert p[i + 3..i + 3 + |f|] == f;
  }

  /** Reading what a token prints gives the token back. */
  lemma NextPrinted(p: string, i: nat, t: Token)
    requires !t.Bad() && At(p, i, PrintToken(t)) && (t.Date? ==> '}' !in t.format)
    requires t.BareDate? ==> i + 2 < |p| && p[i + 2] != '{'
    requires t.FinalDate? ==> i + 2 == |p|
    ensures Next(p, i) == (t, i + |PrintToken(t)|)
  {
    assert p[i + 0] == PrintToken(t)[0];
    if !t.Lit? || t.c == '%' {
      assert p[i + 1] == PrintToken(t)[1];
    }
    if t.Date? {
      NextDatePrinted(p, i, t.format);
    }
  }

  lemma FirstRead(p: string, i: nat, t: Token, rest: seq<Token>)
    requires Fits(t, rest) && WellFormed(rest)
    requires At(p, i, PrintToken(t)) && At(p, i + |PrintToken(t)|, Print(rest))
    requires t.FinalDate? ==> i + |PrintToken(t)| == |p|
    ensures Next(p, i) == (t, i + |PrintToken(t)|)
  {
    if t.BareDate? {
      FirstPrinted(rest);
      assert p[i + 2 + 0] == Print(rest)[0];
    }
    NextPrinted(p, i, t);
  }

  /** The tokens printed at `i` are read back, a final %d only at the very end. */
  lemma {:induction false} LexPrinted(p: string, i: nat, ts: seq<Token>)
    requires WellFormed(ts) && At(p, i, Print(ts))
    requires HasFinalDate(ts) ==> i + |Print(ts)| == |p|
    ensures Lex(p, i) == ts + Lex(p, i + |Print(ts)|)
    decreases |ts|
  {
    hide Next, NextDate, Close, PrintToken;
    if ts != [] {
      var t, rest := ts[0], ts[1..];
      AtConcat(p, i, PrintToken(t), Print(rest));
      FirstRead(p, i, t, rest);
      var n := i + |PrintToken(t)|;
      LexPrinted(p, n, rest);
      assert n + |Print(rest)| == i + |Print(ts)| && [t] + rest == ts;
      LexFirst(p, i);
      Assoc([t], rest, Lex(p, n + |Print(rest)|));
    }
  }

  lemma NextDatePrints(p: string, i: nat)
    requires i + 1 < |p| && p[i] == '%' && p[i + 1] == 'd' && !NextDate(p, i).0.Bad()
    ensures var (t, n) := NextDate(p, i);
            !t.Bad() && PrintToken(t) == p[i..n] && (t.Date? ==> '}' !in t.format)
  {
    if i + 2 < |p| && p[i + 2] == '{' {
      var k := Close(p, i + 3);
      assert p[i..k + 1] == ['%', 'd', '{'] + p[i + 3..k] + ['}'];
    }
  }

  lemma NextPrints(p: string, i: nat)
    requires i < |p| && !Next(p, i).0.Bad()
    ensures var (t, n) := Next(p, i); PrintToken(t) == p[i..n] && (t.Date? ==> '}' !in t.format)
  {
    if p[i] == '%' && i + 1 < |p| && p[i + 1] == 'd' {
      NextDatePrints(p, i);
    } else {
      var (t, n) := Next(p, i);
      assert |PrintToken(t)| == n - i && PrintToken(t)[0] == p[i];
    }
  }

  lemma PrintFirst(t: Token, rest: seq<Token>)
    requires Fits(t, rest) && WellFormed(rest)
    ensures WellFormed([t] + rest) && Print([t] + rest) == PrintToken(t) + Print(rest)
  {
    var ts := [t] + rest;
    assert ts[0] == t && ts[1..] == rest;
  }

  /** A token that is read fits in front of what is read after it. */
  lemma NextFits(p: string, i: nat)
    requires i < |p| && !Next(p, i).0.Bad()
    ensures Fits(Next(p, i).0, Lex(p, Next(p, i).1))
  {
    NextPrints(p, i);
    var (t, n) := Next(p, i);
    if t.BareDate? {
      LexFirst(p, n);
    }
  }

  lemma {:induction false} LexPrints(p: string, i: nat)
    requires i <= |p| && !AnyBad(Lex(p, i))
    ensures WellFormed(Lex(p, i)) && Print(Lex(p, i)) == p[i..]
    decreases |p| - i
  {
    hide Next, NextDate, Close, Fits, PrintToken;
    if i < |p| {
      var (t, n) := Next(p, i);
      var rest := Lex(p, n);
      LexFirst(p, i);
      GoodFirst(t, rest);
      LexPrints(p, n);
      NextPrints(p, i);
      NextFits(p, i);
      PrintFirst(t, rest);
      assert p[i..] == p[i..n] + p[n..];
    }
  }

  lemma GoodFirst(t: Token, rest: seq<Token>)
    requires !AnyBad([t] + rest)
    ensures !t.Bad() && !AnyBad(rest)
  {
    assert ([t] + rest)[0] == t;
    forall k | 0 <= k < |rest| ensures !rest[k].Bad() { assert ([t] + rest)[k + 1] == rest[k]; }
  }

  /** A pattern compiles without error exactly when it is the text of some well-formed token list. */
  lemma ErrorFreeExact(p: string)
    ensures !AnyBad(Tokens(p)) <==> exists ts: seq<Token> :: WellFormed(ts) && Print(ts) == p
  {
    if !AnyBad(Tokens(p)) {
      LexPrints(p, 0);
      assert p[0..] == p;
    }
    if ts: seq<Token> :| WellFormed(ts) && Print(ts) == p {
      LexPrinted(p, 0, ts);
      WellFormedIsGood(ts);
      assert Tokens(p) == ts;
    }
  }

  // ------------------------------------------------------------------
  // Composition of patterns
  // ------------------------------------------------------------------

  lemma {:induction false} CloseShift(p: string, q: string, i: nat)
    requires i <= |q|
    ensures Close(p + q, |p| + i) == |p| + Close(q, i)
    decreases |q| - i
  {
    if i < |q| && q[i] != '}' {
      CloseShift(p, q, i + 1);
    }
  }

  lemma NextShift(p: string, q: string, i: nat)
    requires i < |q|
    ensures Next(p + q, |p| + i) == (Next(q, i).0, |p| + Next(q, i).1)
  {
    if i + 3 < |q| {
      CloseShift(p, q, i + 3);
      var k := Close(q, i + 3);
      assert (p + q)[|p| + i + 3..] == q[i + 3..] && (p + q)[|p| + i + 3..|p| + k] == q[i + 3..k];
    }
  }

  lemma {:induction false} LexShift(p: string, q: string, i: nat)
    requires i <= |q|
    ensures Lex(p + q, |p| + i) == Lex(q, i)
    decreases |q| - i
  {
    hide Next, NextDate, Close;
    if i < |q| {
      NextShift(p, q, i);
      LexShift(p, q, Next(q, i).1);
      LexFirst(p + q, |p| + i);
      LexFirst(q, i);
    }
  }

  lemma {:induction false} NoFinalDate(ts: seq<Token>)
    requires EndTokensLast(ts) && Complete(ts)
    ensures !HasFinalDate(ts)
    decreases |ts|
  {
    if |ts| > 1 {
      assert ts[1..][|ts| - 2] == ts[|ts| - 1];
      forall k | 0 <= k < |ts| - 2 ensures ts[1..][k] == ts[k + 1] {}
      NoFinalDate(ts[1..]);
    }
  }

  lemma TokensConcat(p: string, q: string)
    requires !AnyBad(Tokens(p)) && Complete(Tokens(p))
    ensures Tokens(p + q) == Tokens(p) + Tokens(q)
  {
    var ts := Tokens(p);
    LexPrints(p, 0);
    assert p[0..] == p;
    LexEndTokens(p, 0);
    NoFinalDate(ts);
    assert At(p + q, 0, p);
    hide Complete, EndTokensLast, AnyBad, At, WellFormed, HasFinalDate, Print, Lex;
    LexPrinted(p + q, 0, ts);
    LexShift(p, q, 0);
  }

  /** Compiling a complete error-free pattern followed by any other gives the items of both. */
  lemma CompileConcat(p: string, q: string)
    requires !AnyBad(Tokens(p)) && Complete(Tokens(p))
    ensures Compile(p + q) == Assembly(Compile(p).items + Compile(q).items, Compile(q).pending)
    ensures AnyBad(Tokens(p + q)) <==> AnyBad(Tokens(q))
  {
    var a, b := Tokens(p), Tokens(q);
    TokensConcat(p, q);
    PendingAtEnd("", a);
    AssembleConcat("", a, b);
    if k :| 0 <= k < |b| && b[k].Bad() {
      assert (a + b)[|a| + k].Bad();
    }
  }

  // ------------------------------------------------------------------
  // Printing items
  // ------------------------------------------------------------------

  function Chars(t: string): (ts: seq<Token>)
    ensures |ts| == |t| && forall k :: 0 <= k < |t| ==> ts[k] == Lit(t[k])
  {
    if t == "" then [] else [Lit(t[0])] + Chars(t[1..])
  }

  function ItemTokens(it: Item): seq<Token> {
    match it
    case Text(t) => Chars(t)
    case Field(d) => [Dir(d)]
    case Time(f) => [Date(f)]
  }

  function ItemsTokens(items: seq<Item>): seq<Token> {
    if items == [] then [] else ItemTokens(items[0]) + ItemsTokens(items[1..])
  }

  /** Texts with every % doubled, directives, and times as %d{...}. */
  function PrintItem(it: Item): string {
    match it
    case Text(t) => PrintText(t)
    case Field(d) => ['%', Letter(d)]
    case Time(f) => ['%', 'd', '{'] + f + ['}']
  }

  function PrintText(t: string): string {
    if t == "" then "" else (if t[0] == '%' then "%%" else [t[0]]) + PrintText(t[1..])
  }

  function PrintItems(items: seq<Item>): string {
    if items == [] then "" else PrintItem(items[0]) + PrintItems(items[1..])
  }

  /** An empty time format reads back as the default one. */
  function Canonical(items: seq<Item>): seq<Item> {
    if items == [] then [] else
    [if items[0].Time? then TimeItem(items[0].format) else items[0]] + Canonical(items[1..])
  }

  /** Texts are not empty, not adjacent and not last; time formats hold no closing brace. */
  ghost predicate Printable(items: seq<Item>) {
    items == [] || (
      && (items[0].Text? ==> items[0].text != "" && |items| > 1 && !items[1].Text?)
      && (items[0].Time? ==> '}' !in items[0].format)
      && Printable(items[1..]))
  }

  lemma {:induction false} CharsPrint(t: string, rest: seq<Token>)
    requires WellFormed(rest)
    ensures WellFormed(Chars(t) + rest) && Print(Chars(t) + rest) == PrintText(t) + Print(rest)
  {
    if t == "" {
      assert Chars(t) + rest == rest;
    } else {
      CharsPrint(t[1..], rest);
      CharsFirst(t, rest);
      PrintFirst(Lit(t[0]), Chars(t[1..]) + rest);
      Assoc(PrintToken(Lit(t[0])), PrintText(t[1..]), Print(rest));
      hide Chars, Print, WellFormed, Fits;
    }
  }

  lemma CharsFirst(t: string, rest: seq<Token>)
    requires t != ""
    ensures Chars(t) + rest == [Lit(t[0])] + (Chars(t[1..]) + rest)
  {
  }

  lemma {:induction false} ItemsPrint(items: seq<Item>)
    requires Printable(items)
    ensures WellFormed(ItemsTokens(items)) && Print(ItemsTokens(items)) == PrintItems(items)
    ensures !HasFinalDate(ItemsTokens(items))
  {
    if items != [] {
      var rest := ItemsTokens(items[1..]);
      ItemsPrint(items[1..]);
      match items[0]
      case Text(t) =>
        CharsPrint(t, rest);
        CharsNotFinal(t, rest);
      case _ =>
        assert ItemsTokens(items)[1..] == rest;
    }
  }

  lemma {:induction false} CharsNotFinal(t: string, rest: seq<Token>)
    requires !HasFinalDate(rest)
    ensures !HasFinalDate(Chars(t) + rest)
  {
    if t == "" {
      assert Chars(t) + rest == rest;
    } else {
      CharsNotFinal(t[1..], rest);
      assert (Chars(t) + rest)[1..] == Chars(t[1..]) + rest;
    }
  }

  lemma {:induction false} CharsAssemble(str: string, t: string, rest: seq<Token>)
    ensures Assemble(str, Chars(t) + rest) == Assemble(str + t, rest)
    decreases |t|
  {
    if t == "" {
      assert Chars(t) + rest == rest && str + t == str;
    } else {
      CharsFirst(t, rest);
      CharsAssemble(str + [t[0]], t[1..], rest);
      LitAssembles(str, t[0], Chars(t[1..]) + rest);
      hide Assemble, Chars;
      Assoc(str, [t[0]], t[1..]);
      assert [t[0]] + t[1..] == t;
    }
  }

  lemma LitAssembles(str: string, c: char, rest: seq<Token>)
    ensures Assemble(str, [Lit(c)] + rest) == Assemble(str + [c], rest)
  {
    AssembleFirst(str, Lit(c), rest);
    var b := Assemble(str + [c], rest);
    hide Assemble;
    assert [] + b.items == b.items;
  }

  lemma ItemAssembles(str: string, it: Item, rest: seq<Token>)
    requires !it.Text?
    ensures var b := Assemble("", rest);
            Assemble(str, ItemTokens(it) + rest) == Assembly(Flush(str) + (Canonical([it]) + b.items), b.pending)
  {
    var t := ItemTokens(it)[0];
    ItemStep(str, it);
    AssembleFirst(str, t, rest);
    hide Assemble, Step, Flush, Canonical;
    Assoc(Flush(str), Canonical([it]), Assemble("", rest).items);
  }

  lemma ItemStep(str: string, it: Item)
    requires !it.Text?
    ensures ItemTokens(it) == [ItemTokens(it)[0]]
    ensures Step(str, ItemTokens(it)[0]) == Assembly(Flush(str) + Canonical([it]), "")
  {
    assert Canonical([it]) == [ItemTokens(it)[0].Emits().value] + Canonical([]);
  }

  lemma CanonicalText(t: string)
    requires t != ""
    ensures Canonical([Text(t)]) == Flush(t)
  {
  }

  lemma {:induction false} ItemsAssemble(str: string, items: seq<Item>)
    requires Printable(items) && (str != "" ==> items != [] && !items[0].Text?)
    ensures Assemble(str, ItemsTokens(items)) == Assembly(Flush(str) + Canonical(items), "")
    decreases |items|
  {
    if items != [] {
      var rest := items[1..];
      assert Canonical(items) == Canonical([items[0]]) + Canonical(rest);
      assert ItemsTokens(items) == ItemTokens(items[0]) + ItemsTokens(rest);
      if items[0].Text? {
        var t := items[0].text;
        CharsAssemble("", t, ItemsTokens(rest));
        assert "" + t == t;
        ItemsAssemble(t, rest);
        CanonicalText(t);
        assert Flush(str) + Canonical(items) == Flush(t) + Canonical(rest);
      } else {
        ItemsAssemble("", rest);
        ItemAssembles(str, items[0], ItemsTokens(rest));
        assert Flush("") + Canonical(rest) == Canonical(rest);
      }
    }
  }

  /** Printing an item list and compiling the result gives the same items, without error. */
  lemma PrintCompile(items: seq<Item>)
    requires Printable(items)
    ensures Compile(PrintItems(items)) == Assembly(Canonical(items), "")
    ensures !AnyBad(Tokens(PrintItems(items)))
  {
    hide Printable, ItemsTokens, PrintItems, Canonical, WellFormed, Print, HasFinalDate, AnyBad, Assemble, Next;
    var p, ts := PrintItems(items), ItemsTokens(items);
    ItemsPrint(items);
    LexPrinted(p, 0, ts);
    assert Tokens(p) == ts;
    WellFormedIsGood(ts);
    ItemsAssemble("", items);
  }

  // ------------------------------------------------------------------
  // What faulty patterns compile to
  // ------------------------------------------------------------------

  lemma {:induction false} PlainText(t: string)
    requires '%' !in t
    ensures PrintText(t) == t
  {
    if t != "" {
      PlainText(t[1..]);
    }
  }

  lemma LonePercentTokens(t: string)
    requires '%' !in t
    ensures Tokens(t + "%") == Chars(t) + [LonePercent]
  {
    hide Lex, Chars, WellFormed, Print, HasFinalDate;
    var p, ts := t + "%", Chars(t);
    NothingLeft(ts);
    CharsPrint(t, []);
    CharsNotFinal(t, []);
    PlainText(t);
    LexPrinted(p, 0, ts);
    assert Next(p, |t|) == (LonePercent, |p|);
    LexFirst(p, |t|);
    LexEnd(p);
  }

  lemma NothingLeft(ts: seq<Token>)
    ensures ts + [] == ts && !HasFinalDate([]) && WellFormed([]) && Print([]) == "" && forall p: string :: p + "" == p
  {
  }

  lemma LexEnd(p: string)
    ensures Lex(p, |p|) == []
  {
  }

  /** A lone final %: the notice comes at once and the text before it is never written. */
  lemma CompileLonePercent(t: string)
    requires '%' !in t
    ensures Compile(t + "%") == Assembly([Text("<error format %>")], t)
  {
    LonePercentTokens(t);
    CharsAssemble("", t, [LonePercent]);
    AssembleFirst("" + t, LonePercent, []);
    assert [LonePercent] + [] == [LonePercent] && "" + t == t;
    hide Chars, Lex;
  }

  /** % and an unknown letter: a notice in its place. */
  lemma CompileUnknown(c: char)
    requires c != '%' && c != 'd' && c !in "mprctnflTFN"
    ensures Compile(['%', c]) == Assembly([Text("<error format %" + [c] + ">")], "")
  {
    ItemTable();
    var p := ['%', c];
    assert Next(p, 0) == (Unknown(c), 2);
    LexFirst(p, 0);
    assert Tokens(p) == [Unknown(c)] + [];
    AssembleFirst("", Unknown(c), []);
  }

  lemma CompileOpenAtEnd()
    ensures Compile("%d{") == Assembly([Text("<error format %d{ >")], "")
  {
    var p := "%d{";
    assert Next(p, 0) == (OpenAtEnd, 3);
    LexFirst(p, 0);
    assert Tokens(p) == [OpenAtEnd] + [];
    AssembleFirst("", OpenAtEnd, []);
  }

  lemma {:induction false} CloseNever(p: string, i: nat)
    requires i <= |p| && forall j :: i <= j < |p| ==> p[j] != '}'
    ensures Close(p, i) == |p|
    decreases |p| - i
  {
    if i < |p| {
      CloseNever(p, i + 1);
    }
  }

  lemma UnclosedTokens(tail: string)
    requires tail != "" && '}' !in tail
    ensures Tokens("%d{" + tail) == [Unclosed(tail)] + Tokens(tail[1..])
  {
    var p := "%d{" + tail;
    UnclosedNext(tail);
    hide Next, Lex;
    LexFirst(p, 0);
    var read := p[..4];
    assert p == read + tail[1..] && |read| == 4;
    LexShift(read, tail[1..], 0);
  }

  lemma UnclosedNext(tail: string)
    requires tail != "" && '}' !in tail
    ensures Next("%d{" + tail, 0) == (Unclosed(tail), 4)
  {
    var p := "%d{" + tail;
    assert p[3..] == tail;
    forall j | 3 <= j < |p| ensures p[j] != '}' { assert p[j] == tail[j - 3]; }
    CloseNever(p, 3);
  }

  /** %d{ without a closing brace: a notice that quotes the rest, and all but one character of the rest is read again. */
  lemma CompileUnclosed(tail: string)
    requires tail != "" && '}' !in tail
    ensures var again := Compile(tail[1..]);
            Compile("%d{" + tail) == Assembly([Text("<error format %d{" + tail + " >")] + again.items, again.pending)
  {
    UnclosedTokens(tail);
    hide Lex, Next;
    AssembleFirst("", Unclosed(tail), Tokens(tail[1..]));
  }
}
