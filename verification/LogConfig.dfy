/** The `logs` configuration of src/log.cpp and what a sequence of changes to it must lead to. */
module LogConfig {
  import LP = LogPattern
  import opened Basics

  /** The levels; Unknown is the level with number 0. */
  datatype Level = Unknown | Debug | Info | Warn | Error | Fatal

  datatype Sink = File(filename: string) | Stdout

  datatype AppenderDefine = AppenderDefine(kind: int, level: Level, formatter: string, file: string)

  datatype LogDefine = LogDefine(name: string, level: Level, formatter: string, appenders: seq<AppenderDefine>)

  /** An appender and a logger as seen through their definitions. */
  datatype AppenderView = AppenderView(sink: Sink, level: Level, own: Option<string>)

  datatype LoggerView = LoggerView(level: Level, formatter: string, appenders: seq<AppenderView>)

  /** The pattern that the k-th appender of a logger writes by: its own, or the logger's. */
  function PatternOf(v: LoggerView, k: nat): string
    requires k < |v.appenders|
  {
    if v.appenders[k].own.Some? then v.appenders[k].own.value else v.formatter
  }

  const DEFAULT_PATTERN := "%d{%Y-%m-%d %H:%M:%S}%T%t%T%N%T%F%T[%p]%T[%c]%T%f:%l%T%m%n"

  ghost const NEW_LOGGER := LoggerView(Debug, DEFAULT_PATTERN, [])

  ghost predicate ValidPattern(p: string) { !LP.AnyBad(LP.Tokens(p)) }

  /** A pattern that a definition can impose: given and valid. */
  ghost predicate Imposes(p: string) { p != "" && ValidPattern(p) }

  // ------------------------------------------------------------------
  // What one definition, and one change of the configuration, must do
  // ------------------------------------------------------------------

  ghost function DefinedAppender(a: AppenderDefine): AppenderView
    requires a.kind == 1 || a.kind == 2
  {
    AppenderView(if a.kind == 1 then File(a.file) else Stdout, a.level,
                 if Imposes(a.formatter) then Some(a.formatter) else None)
  }

  /** The appenders of a definition; those of an unknown kind are skipped. */
  ghost function DefinedAppenders(ads: seq<AppenderDefine>): seq<AppenderView> {
    if ads == [] then [] else
    var last := ads[|ads| - 1];
    DefinedAppenders(ads[..|ads| - 1]) + if last.kind == 1 || last.kind == 2 then [DefinedAppender(last)] else []
  }

  lemma DefinedAppendersNext(ads: seq<AppenderDefine>, k: nat)
    requires k < |ads|
    ensures DefinedAppenders(ads[..k + 1]) ==
            DefinedAppenders(ads[..k]) + if ads[k].kind == 1 || ads[k].kind == 2 then [DefinedAppender(ads[k])] else []
  {
    assert ads[..k + 1][..k] == ads[..k];
  }

  predicate Known(a: AppenderDefine) { a.kind == 1 || a.kind == 2 }

  /** `ks` are the places in `ads` of the definitions of known kind, in order. */
  ghost predicate Places(ads: seq<AppenderDefine>, ks: seq<nat>) {
    && (forall i, j :: 0 <= i < j < |ks| ==> ks[i] < ks[j])
    && (forall i :: 0 <= i < |ks| ==> ks[i] < |ads| && Known(ads[ks[i]]))
    && forall k: nat :: k < |ads| && Known(ads[k]) ==> k in ks
  }

  ghost predicate HasKnown(ads: seq<AppenderDefine>) {
    exists k :: 0 <= k < |ads| && Known(ads[k])
  }

  /** The view `v` is that of an appender made from `a`. */
  ghost predicate Shows(v: AppenderView, a: AppenderDefine) {
    && (a.kind == 1 ==> v.sink == File(a.file)) && (a.kind == 2 ==> v.sink == Stdout) && v.level == a.level
    && v.own == if a.formatter != "" && ValidPattern(a.formatter) then Some(a.formatter) else None
  }

  ghost function KnownPlaces(ads: seq<AppenderDefine>): seq<nat> {
    if ads == [] then [] else
    var n := |ads| - 1;
    KnownPlaces(ads[..n]) + if Known(ads[n]) then [n] else []
  }

  lemma {:induction false} KnownPlacesExact(ads: seq<AppenderDefine>)
    ensures Places(ads, KnownPlaces(ads))
    ensures KnownPlaces(ads) == [] <==> !HasKnown(ads)
  {
    if ads != [] {
      var n := |ads| - 1;
      var before, ks := KnownPlaces(ads[..n]), KnownPlaces(ads);
      KnownPlacesExact(ads[..n]);
      PlacesNext(ads, before);
      if ks != [] {
        assert Known(ads[ks[0]]);
      }
    }
  }

  lemma PlacesNext(ads: seq<AppenderDefine>, before: seq<nat>)
    requires ads != [] && Places(ads[..|ads| - 1], before)
    ensures Places(ads, before + if Known(ads[|ads| - 1]) then [|ads| - 1] else [])
  {
    var n := |ads| - 1;
    var ks := before + if Known(ads[n]) then [n] else [];
    forall k: nat | k < |ads| && Known(ads[k]) ensures k in ks {
      if k < n {
        assert ads[..n][k] == ads[k] && k in before;
      } else {
        assert ks[|before|] == n;
      }
    }
    forall i | 0 <= i < |ks| ensures ks[i] < |ads| && Known(ads[ks[i]]) {
      if i < |before| {
        assert ads[..n][ks[i]] == ads[ks[i]];
      }
    }
  }

  lemma {:induction false} DefinedAppendersAt(ads: seq<AppenderDefine>)
    requires forall i :: 0 <= i < |KnownPlaces(ads)| ==> KnownPlaces(ads)[i] < |ads|
    ensures |DefinedAppenders(ads)| == |KnownPlaces(ads)|
    ensures forall i :: 0 <= i < |KnownPlaces(ads)| ==> Shows(DefinedAppenders(ads)[i], ads[KnownPlaces(ads)[i]])
  {
    hide ValidPattern, Places;
    if ads != [] {
      var n := |ads| - 1;
      KnownPlacesExact(ads[..n]);
      PlacesInside(ads[..n]);
      DefinedAppendersAt(ads[..n]);
      forall i | 0 <= i < |KnownPlaces(ads)| ensures Shows(DefinedAppenders(ads)[i], ads[KnownPlaces(ads)[i]]) {
        if i < |KnownPlaces(ads[..n])| {
          assert ads[..n][KnownPlaces(ads[..n])[i]] == ads[KnownPlaces(ads)[i]];
        }
      }
    }
  }

  lemma PlacesInside(ads: seq<AppenderDefine>)
    ensures forall i :: 0 <= i < |KnownPlaces(ads)| ==> KnownPlaces(ads)[i] < |ads|
  {
    KnownPlacesExact(ads);
  }

  /**
   The appenders of a definition are those of known kind, in order: a file or standard
   output, at the given level, with a formatter of its own exactly if a valid one is given.
   */
  lemma DefinedAppendersExact(ads: seq<AppenderDefine>) returns (ks: seq<nat>)
    ensures Places(ads, ks) && |DefinedAppenders(ads)| == |ks|
    ensures forall i :: 0 <= i < |ks| ==> Shows(DefinedAppenders(ads)[i], ads[ks[i]])
    ensures DefinedAppenders(ads) == [] <==> !HasKnown(ads)
  {
    hide Shows;
    ks := KnownPlaces(ads);
    KnownPlacesExact(ads);
    DefinedAppendersAt(ads);
  }

  /** A logger after the definition `d` has been applied to it. */
  ghost function Configured(v: LoggerView, d: LogDefine): LoggerView {
    LoggerView(d.level, if Imposes(d.formatter) then d.formatter else v.formatter, DefinedAppenders(d.appenders))
  }

  /** A logger whose definition has gone. */
  function Removed(v: LoggerView): LoggerView {
    LoggerView(Unknown, v.formatter, [])
  }

  type LoggerTable = map<string, LoggerView>

  ghost function GetOr(m: LoggerTable, n: string): LoggerView {
    if n in m then m[n] else NEW_LOGGER
  }

  function FindDef(c: seq<LogDefine>, n: string): Option<LogDefine> {
    if c == [] then None
    else if c[0].name == n then Some(c[0])
    else FindDef(c[1..], n)
  }

  /** A configuration is a set ordered by name: no name occurs twice. */
  ghost predicate DistinctNames(c: seq<LogDefine>) {
    forall i, j :: 0 <= i < j < |c| ==> c[i].name != c[j].name
  }

  lemma {:induction false} FindDefAt(c: seq<LogDefine>, k: nat)
    requires k < |c| && DistinctNames(c)
    ensures FindDef(c, c[k].name) == Some(c[k])
  {
    if k > 0 {
      assert c[0].name != c[k].name;
      FindDefAt(c[1..], k - 1);
    }
  }

  lemma {:induction false} FindDefIn(c: seq<LogDefine>, n: string)
    ensures FindDef(c, n).Some? ==> FindDef(c, n).value in c && FindDef(c, n).value.name == n
    ensures FindDef(c, n).None? ==> forall k :: 0 <= k < |c| ==> c[k].name != n
  {
    if c != [] && c[0].name != n {
      FindDefIn(c[1..], n);
      forall k | 0 < k < |c| && FindDef(c, n).None? ensures c[k].name != n { assert c[k] == c[1..][k - 1]; }
    }
  }

  // The listener, definition by definition, as it runs through the new and then the old set.

  ghost function AddOrChange(m: LoggerTable, d: LogDefine, olds: seq<LogDefine>): LoggerTable {
    if FindDef(olds, d.name) == Some(d) then m else m[d.name := Configured(GetOr(m, d.name), d)]
  }

  ghost function Delete(m: LoggerTable, d: LogDefine, news: seq<LogDefine>): LoggerTable {
    if FindDef(news, d.name).Some? then m else m[d.name := Removed(GetOr(m, d.name))]
  }

  ghost function AddOrChangeAll(m: LoggerTable, news: seq<LogDefine>, olds: seq<LogDefine>): LoggerTable {
    if news == [] then m else
    AddOrChange(AddOrChangeAll(m, news[..|news| - 1], olds), news[|news| - 1], olds)
  }

  ghost function DeleteAll(m: LoggerTable, olds: seq<LogDefine>, news: seq<LogDefine>): LoggerTable {
    if olds == [] then m else
    Delete(DeleteAll(m, olds[..|olds| - 1], news), olds[|olds| - 1], news)
  }

  /** One notification of the listener. */
  ghost function Change(m: LoggerTable, news: seq<LogDefine>, olds: seq<LogDefine>): LoggerTable {
    DeleteAll(AddOrChangeAll(m, news, olds), olds, news)
  }

  /** What `m` says about the name `n`. */
  ghost function At(m: LoggerTable, n: string): Option<LoggerView> {
    if n in m then Some(m[n]) else None
  }

  /** The effect of a notification on one name. */
  ghost function ChangeAt(v: Option<LoggerView>, d: Option<LogDefine>, o: Option<LogDefine>): Option<LoggerView> {
    var w := if v.Some? then v.value else NEW_LOGGER;
    if d.Some? then (if o == d then v else Some(Configured(w, d.value)))
    else if o.Some? then Some(Removed(w))
    else v
  }

  lemma {:induction false} AddOrChangeAllAt(m: LoggerTable, news: seq<LogDefine>, olds: seq<LogDefine>, n: string)
    requires DistinctNames(news)
    ensures At(AddOrChangeAll(m, news, olds), n) ==
            if FindDef(news, n).Some? then ChangeAt(At(m, n), FindDef(news, n), FindDef(olds, n)) else At(m, n)
  {
    if news != [] {
      var k := |news| - 1;
      var front := news[..k];
      AddOrChangeAllAt(m, front, olds, n);
      FindDefLast(news, n);
      if news[k].name == n {
        FindDefIn(front, n);
        FindDefAt(news, k);
      }
    }
  }

  lemma {:induction false} FindDefLast(c: seq<LogDefine>, n: string)
    requires c != []
    ensures var k := |c| - 1;
            FindDef(c, n) == if FindDef(c[..k], n).Some? then FindDef(c[..k], n)
                             else if c[k].name == n then Some(c[k]) else None
  {
    if |c| > 1 && c[0].name != n {
      FindDefLast(c[1..], n);
      assert c[1..][..|c| - 2] == c[..|c| - 1][1..];
    }
  }

  lemma {:induction false} DeleteAllAt(m: LoggerTable, olds: seq<LogDefine>, news: seq<LogDefine>, n: string)
    requires DistinctNames(olds)
    ensures At(DeleteAll(m, olds, news), n) ==
            if FindDef(olds, n).Some? && FindDef(news, n).None? then Some(Removed(GetOr(m, n))) else At(m, n)
  {
    if olds != [] {
      var k := |olds| - 1;
      var front := olds[..k];
      DeleteAllAt(m, front, news, n);
      FindDefLast(olds, n);
      if olds[k].name == n {
        FindDefIn(front, n);
      }
    }
  }

  lemma ChangeAtName(m: LoggerTable, news: seq<LogDefine>, olds: seq<LogDefine>, n: string)
    requires DistinctNames(news) && DistinctNames(olds)
    ensures At(Change(m, news, olds), n) == ChangeAt(At(m, n), FindDef(news, n), FindDef(olds, n))
  {
    AddOrChangeAllAt(m, news, olds, n);
    DeleteAllAt(AddOrChangeAll(m, news, olds), olds, news, n);
  }

  // ------------------------------------------------------------------
  // Whole histories
  // ------------------------------------------------------------------

  function Last(hist: seq<seq<LogDefine>>): seq<LogDefine> {
    if hist == [] then [] else hist[|hist| - 1]
  }

  /** A message to root is written somewhere; root has no logger to fall back on. */
  ghost predicate RootAnswers(m: LoggerTable) {
    ROOT in m && m[ROOT].appenders != []
  }

  /**
   The loggers after setting `logs` to each configuration of `hist` in turn. Setting an
   equal value does nothing. The listener first logs to root: if that fails, so does the
   program, and nothing changes any more.
   */
  ghost function Run(m: LoggerTable, hist: seq<seq<LogDefine>>): LoggerTable {
    if hist == [] then m else
    var front := hist[..|hist| - 1];
    if Last(hist) == Last(front) || !RootAnswers(Run(m, front)) then Run(m, front)
    else Change(Run(m, front), Last(hist), Last(front))
  }

  /** Every notification of the history finds an appender on root. */
  ghost predicate AllHeard(m: LoggerTable, hist: seq<seq<LogDefine>>) {
    forall k: nat :: k < |hist| ==> HeardAt(m, hist, k)
  }

  /** Either nothing is announced at the k-th configuration, or root has an appender. */
  ghost predicate HeardAt(m: LoggerTable, hist: seq<seq<LogDefine>>, k: nat)
    requires k < |hist|
  {
    hist[k] != Last(hist[..k]) ==> RootAnswers(Run(m, hist[..k]))
  }

  /**
   Root has an appender after `hist`, as the configurations say: its definition gives it
   one, or it has never been defined and had one.
   */
  ghost predicate RootKept(had: bool, hist: seq<seq<LogDefine>>) {
    match FindDef(Last(hist), ROOT)
    case Some(d) => HasKnown(d.appenders)
    case None => had && !EverConfigured(hist, ROOT)
  }

  /** Whenever the configuration changes, root has an appender before. */
  ghost predicate KeepsRoot(had: bool, hist: seq<seq<LogDefine>>) {
    forall k: nat :: k < |hist| ==> KeptAt(had, hist, k)
  }

  ghost predicate KeptAt(had: bool, hist: seq<seq<LogDefine>>, k: nat)
    requires k < |hist|
  {
    hist[k] != Last(hist[..k]) ==> RootKept(had, hist[..k])
  }

  /** The last valid non-empty pattern that any configuration gave to `n`, else `f`. */
  ghost function LastFormatter(hist: seq<seq<LogDefine>>, n: string, f: string): string {
    if hist == [] then f else
    var d := FindDef(Last(hist), n);
    if d.Some? && Imposes(d.value.formatter) then d.value.formatter
    else LastFormatter(hist[..|hist| - 1], n, f)
  }

  /** The k-th configuration gives `n` a valid pattern. */
  ghost predicate Gives(hist: seq<seq<LogDefine>>, n: string, k: nat)
    requires k < |hist|
  {
    var d := FindDef(hist[k], n);
    d.Some? && d.value.formatter != "" && ValidPattern(d.value.formatter)
  }

  /** The pattern is that of the last configuration that gives one, */
  lemma {:induction false} LastFormatterGiven(hist: seq<seq<LogDefine>>, n: string, f: string, k: nat)
    requires k < |hist| && Gives(hist, n, k) && forall j :: k < j < |hist| ==> !Gives(hist, n, j)
    ensures LastFormatter(hist, n, f) == FindDef(hist[k], n).value.formatter
  {
    hide ValidPattern;
    var front := hist[..|hist| - 1];
    if k < |front| {
      assert !Gives(hist, n, |front|) && Gives(front, n, k);
      forall j | k < j < |front| ensures !Gives(front, n, j) { assert !Gives(hist, n, j); }
      LastFormatterGiven(front, n, f, k);
    }
  }

  /** or the first one if none does. */
  lemma {:induction false} LastFormatterKept(hist: seq<seq<LogDefine>>, n: string, f: string)
    requires forall j :: 0 <= j < |hist| ==> !Gives(hist, n, j)
    ensures LastFormatter(hist, n, f) == f
  {
    hide ValidPattern;
    if hist != [] {
      var front := hist[..|hist| - 1];
      assert !Gives(hist, n, |front|);
      forall j | 0 <= j < |front| ensures !Gives(front, n, j) { assert !Gives(hist, n, j); }
      LastFormatterKept(front, n, f);
    }
  }

  ghost predicate EverConfigured(hist: seq<seq<LogDefine>>, n: string) {
    exists k :: 0 <= k < |hist| && FindDef(hist[k], n).Some?
  }

  /** What must be known about `n` after `hist`, without going through it. */
  ghost function FromScratch(v: Option<LoggerView>, hist: seq<seq<LogDefine>>, n: string): Option<LoggerView> {
    var f := LastFormatter(hist, n, if v.Some? then v.value.formatter else DEFAULT_PATTERN);
    match FindDef(Last(hist), n)
    case Some(d) => Some(LoggerView(d.level, f, DefinedAppenders(d.appenders)))
    case None => if EverConfigured(hist, n) then Some(LoggerView(Unknown, f, [])) else v
  }

  /**
   Patching the loggers at every change leaves each name as if the last configuration
   had been applied from scratch: a configured name has the level, appenders and
   valid own formatters of its definition, a removed one has level 0 and no
   appenders, one never configured is untouched, and the logger's formatter is the
   last valid one it was ever given. This needs every notification to get past its
   message to root.
   */
  lemma {:induction false} IncrementalIsFromScratch(m: LoggerTable, hist: seq<seq<LogDefine>>, n: string)
    requires (forall k :: 0 <= k < |hist| ==> DistinctNames(hist[k])) && AllHeard(m, hist)
    ensures At(Run(m, hist), n) == FromScratch(At(m, n), hist, n)
    decreases |hist|
  {
    hide AllHeard, RootAnswers, FromScratch, ChangeAt, Change;
    if hist != [] {
      var k := |hist| - 1;
      var front := hist[..k];
      HeardFront(m, hist);
      IncrementalIsFromScratch(m, front, n);
      FromScratchStep(At(m, n), hist, n);
      if Last(hist) != Last(front) {
        assert front == [] || Last(front) == hist[k - 1];
        ChangeAtName(Run(m, front), Last(hist), Last(front), n);
      } else {
        SameConfig(At(Run(m, front), n), FindDef(Last(front), n));
      }
    } else {
      FromNothing(At(m, n), n);
    }
  }

  lemma SameConfig(v: Option<LoggerView>, d: Option<LogDefine>)
    ensures ChangeAt(v, d, d) == v
  {
  }

  lemma FromNothing(v: Option<LoggerView>, n: string)
    ensures FromScratch(v, [], n) == v
  {
  }

  lemma FrontSame(hist: seq<seq<LogDefine>>, k: nat)
    requires k < |hist|
    ensures var front := hist[..|hist| - 1];
            hist[..k] == front[..k] && (k < |front| ==> hist[k] == front[k]) && front[..|front|] == front
  {
  }

  lemma HeardSame(m: LoggerTable, hist: seq<seq<LogDefine>>, k: nat)
    requires k < |hist|
    ensures var front := hist[..|hist| - 1];
            if k < |front| then HeardAt(m, hist, k) <==> HeardAt(m, front, k)
            else HeardAt(m, hist, k) <==> (Last(hist) != Last(front) ==> RootAnswers(Run(m, front)))
  {
    hide Run, RootAnswers;
    FrontSame(hist, k);
  }

  lemma HeardFront(m: LoggerTable, hist: seq<seq<LogDefine>>)
    requires hist != []
    ensures var front := hist[..|hist| - 1];
            AllHeard(m, hist) <==> AllHeard(m, front) && (Last(hist) != Last(front) ==> RootAnswers(Run(m, front)))
  {
    hide Run, RootAnswers, HeardAt, Last;
    var front := hist[..|hist| - 1];
    HeardSame(m, hist, |front|);
    forall k: nat | k < |front| ensures HeardAt(m, hist, k) <==> HeardAt(m, front, k) {
      HeardSame(m, hist, k);
    }
  }

  lemma KeptSame(had: bool, hist: seq<seq<LogDefine>>, k: nat)
    requires k < |hist|
    ensures var front := hist[..|hist| - 1];
            if k < |front| then KeptAt(had, hist, k) <==> KeptAt(had, front, k)
            else KeptAt(had, hist, k) <==> (Last(hist) != Last(front) ==> RootKept(had, front))
  {
    hide RootKept;
    FrontSame(hist, k);
  }

  lemma KeepsFront(had: bool, hist: seq<seq<LogDefine>>)
    requires hist != []
    ensures var front := hist[..|hist| - 1];
            KeepsRoot(had, hist) <==> KeepsRoot(had, front) && (Last(hist) != Last(front) ==> RootKept(had, front))
  {
    hide RootKept, KeptAt, Last;
    var front := hist[..|hist| - 1];
    KeptSame(had, hist, |front|);
    forall k: nat | k < |front| ensures KeptAt(had, hist, k) <==> KeptAt(had, front, k) {
      KeptSame(had, hist, k);
    }
  }

  /**
   Every notification gets past its message to root exactly when the configurations
   leave root an appender whenever they change.
   */
  lemma {:induction false} HeardExact(m: LoggerTable, hist: seq<seq<LogDefine>>)
    requires ROOT in m && forall k :: 0 <= k < |hist| ==> DistinctNames(hist[k])
    ensures AllHeard(m, hist) <==> KeepsRoot(RootAnswers(m), hist)
    decreases |hist|
  {
    if hist != [] {
      var front := hist[..|hist| - 1];
      HeardFront(m, hist);
      KeepsFront(RootAnswers(m), hist);
      HeardExact(m, front);
      if AllHeard(m, front) {
        RootAnswersExact(m, front);
      }
    }
  }

  lemma RootAnswersExact(m: LoggerTable, hist: seq<seq<LogDefine>>)
    requires ROOT in m && (forall k :: 0 <= k < |hist| ==> DistinctNames(hist[k])) && AllHeard(m, hist)
    ensures RootAnswers(Run(m, hist)) <==> RootKept(RootAnswers(m), hist)
  {
    IncrementalIsFromScratch(m, hist, ROOT);
    assert At(Run(m, hist), ROOT) == FromScratch(At(m, ROOT), hist, ROOT);
    hide Run;
    var d := FindDef(Last(hist), ROOT);
    if d.Some? {
      var ks := DefinedAppendersExact(d.value.appenders);
    }
  }

  /** A definition of root without appenders silences it: the next change fails. */
  lemma SilencedRoot(had: bool, d: LogDefine)
    requires d.name != ROOT
    ensures !KeepsRoot(had, [[LogDefine(ROOT, Info, "", [])], [d]])
  {
    var hist := [[LogDefine(ROOT, Info, "", [])], [d]];
    assert hist[..1] == [[LogDefine(ROOT, Info, "", [])]];
    assert FindDef(Last(hist[..1]), ROOT) == Some(LogDefine(ROOT, Info, "", []));
    assert !RootKept(had, hist[..1]) && !KeptAt(had, hist, 1);
  }

  /** And so does a configuration that no longer defines root, whatever it was before. */
  lemma RetiredRoot(had: bool, c: seq<LogDefine>, d: seq<LogDefine>, e: seq<LogDefine>)
    requires FindDef(c, ROOT).Some? && FindDef(d, ROOT).None? && e != d
    ensures !KeepsRoot(had, [c, d, e])
  {
    var hist := [c, d, e];
    assert hist[..2] == [c, d] && FindDef(hist[..2][0], ROOT).Some?;
    assert !RootKept(had, hist[..2]) && !KeptAt(had, hist, 2);
  }

  /** One more configuration: what the listener does, whether it gets past root, and what is known then. */
  lemma RunNext(m: LoggerTable, hist: seq<seq<LogDefine>>, k: nat)
    requires k < |hist|
    ensures var front := hist[..k];
            && Last(hist[..k + 1]) == hist[k]
            && Run(m, hist[..k + 1]) == (
                 if hist[k] == Last(front) || !RootAnswers(Run(m, front)) then Run(m, front)
                 else Change(Run(m, front), hist[k], Last(front)))
            && (AllHeard(m, hist[..k + 1]) <==>
                AllHeard(m, front) && (hist[k] != Last(front) ==> RootAnswers(Run(m, front))))
  {
    assert hist[..k + 1][..k] == hist[..k];
    HeardFront(m, hist[..k + 1]);
    hide AllHeard, RootAnswers;
  }

  lemma NothingRun(m: LoggerTable)
    ensures Run(m, []) == m && AllHeard(m, []) && Last([]) == []
  {
  }

  /** The first notification that finds root without an appender. */
  lemma StopsHere(m: LoggerTable, hist: seq<seq<LogDefine>>, k: nat)
    requires ROOT in m && k < |hist| && AllHeard(m, hist[..k])
    requires forall j :: 0 <= j < |hist| ==> DistinctNames(hist[j])
    requires hist[k] != Last(hist[..k]) && !RootAnswers(Run(m, hist[..k]))
    ensures !RootKept(RootAnswers(m), hist[..k]) && !KeepsRoot(RootAnswers(m), hist)
  {
    RootAnswersExact(m, hist[..k]);
    assert !KeptAt(RootAnswers(m), hist, k);
  }

  /** What is known when a history has been set as far as it goes. */
  lemma SetAsFar(m: LoggerTable, hist: seq<seq<LogDefine>>, k: nat)
    requires ROOT in m && k <= |hist| && AllHeard(m, hist[..k])
    requires forall j :: 0 <= j < |hist| ==> DistinctNames(hist[j])
    requires k < |hist| ==> hist[k] != Last(hist[..k]) && !RootAnswers(Run(m, hist[..k]))
    ensures k == |hist| <==> KeepsRoot(RootAnswers(m), hist)
    ensures k < |hist| ==> !RootKept(RootAnswers(m), hist[..k])
    ensures forall n :: At(Run(m, hist[..k]), n) == FromScratch(At(m, n), hist[..k], n)
  {
    hide *;
    if k == |hist| {
      assert hist[..|hist|] == hist;
      HeardExact(m, hist);
    } else {
      StopsHere(m, hist, k);
    }
    forall n ensures At(Run(m, hist[..k]), n) == FromScratch(At(m, n), hist[..k], n) {
      IncrementalIsFromScratch(m, hist[..k], n);
    }
  }

  lemma FromScratchStep(v: Option<LoggerView>, hist: seq<seq<LogDefine>>, n: string)
    requires hist != []
    ensures var front := hist[..|hist| - 1];
            FromScratch(v, hist, n) == ChangeAt(FromScratch(v, front, n), FindDef(Last(hist), n), FindDef(Last(front), n))
  {
    EverConfiguredStep(hist, n);
    FormatterOnceConfigured(v, hist[..|hist| - 1], n);
  }

  /** A logger that does not exist has no formatter but the default to start from. */
  lemma {:induction false} FormatterOnceConfigured(v: Option<LoggerView>, hist: seq<seq<LogDefine>>, n: string)
    ensures var w := FromScratch(v, hist, n);
            LastFormatter(hist, n, if v.Some? then v.value.formatter else DEFAULT_PATTERN)
            == if w.Some? then w.value.formatter else DEFAULT_PATTERN
    decreases |hist|
  {
    if hist != [] {
      EverConfiguredStep(hist, n);
      FormatterOnceConfigured(v, hist[..|hist| - 1], n);
    }
  }

  lemma EverConfiguredStep(hist: seq<seq<LogDefine>>, n: string)
    requires hist != []
    ensures EverConfigured(hist, n) <==> EverConfigured(hist[..|hist| - 1], n) || FindDef(Last(hist), n).Some?
    ensures FindDef(Last(hist[..|hist| - 1]), n).Some? ==> EverConfigured(hist[..|hist| - 1], n)
  {
    var front := hist[..|hist| - 1];
    if k :| 0 <= k < |hist| && FindDef(hist[k], n).Some? && k < |front| {
      assert FindDef(front[k], n).Some?;
    }
    if k :| 0 <= k < |front| && FindDef(front[k], n).Some? {
      assert FindDef(hist[k], n).Some?;
    }
  }
}
