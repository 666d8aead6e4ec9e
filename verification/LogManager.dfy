/** The logger registry of src/log.cpp and the listener on the `logs` configuration variable. */
module LogManager {
  import opened Basics
  import LP = LogPattern
  import opened LogConfig
  import opened Loggers

  lemma UpdatedTwice(m: LoggerTable, n: string, v: LoggerView, w: LoggerView)
    ensures m[n := v][n := w] == m[n := w]
  {
  }

  ghost const NEW_ROOT := NEW_LOGGER.(appenders := [AppenderView(Stdout, Debug, None)])

  /** The root logger, which writes to standard output. */
  method NewRoot() returns (r: Logger, a: LogAppender)
    ensures fresh(r) && fresh(a) && r.Valid() && r.name == ROOT && r.root == null
    ensures r.appenders == [a] && r.View() == NEW_ROOT
    ensures r.level == Debug && r.formatter.pattern == DEFAULT_PATTERN
    ensures a.sink == Stdout && a.level == Debug && a.formatter == r.formatter && !a.hasFormatter
  {
    r := new Logger(ROOT, null);
    a := new LogAppender(Stdout);
    r.AddAppender(a);
    assert r.View().appenders == NEW_ROOT.appenders;
  }

  /**
   One text to each appender that the definitions ask for, in order: what the appender's
   own pattern means if it is given a valid one, else what the logger's means.
   */
  ghost predicate Wrote(ads: seq<AppenderDefine>, shared: string, ev: LP.Event, out: seq<(LogAppender, string)>) {
    exists ks :: Places(ads, ks) && |out| == |ks| && forall i :: 0 <= i < |ks| ==>
      WroteOne(ads[ks[i]], shared, ev, out[i].0.sink, out[i].1)
  }

  ghost predicate WroteOne(a: AppenderDefine, shared: string, ev: LP.Event, sink: Sink, text: string) {
    && (a.kind == 1 ==> sink == File(a.file)) && (a.kind == 2 ==> sink == Stdout)
    && (if a.formatter != "" && ValidPattern(a.formatter) then Means(a.formatter, ev, text)
        else ValidPattern(shared) ==> Means(shared, ev, text))
  }

  /** The text is what the pattern means, unless the pattern loses its end. */
  ghost predicate Means(p: string, ev: LP.Event, text: string) {
    LP.Complete(LP.Tokens(p)) ==> text == LP.Meaning(LP.Tokens(p), ev)
  }

  lemma WrittenAsDefined(v: LoggerView, ads: seq<AppenderDefine>, ev: LP.Event, out: seq<(LogAppender, string)>)
    requires v.appenders == DefinedAppenders(ads) && Writes(v, ev, out)
    ensures Wrote(ads, v.formatter, ev, out)
  {
    hide DefinedAppenders, WroteOne, PatternOf, Shows;
    var ks := DefinedAppendersExact(ads);
    forall i | 0 <= i < |ks| ensures WroteOne(ads[ks[i]], v.formatter, ev, out[i].0.sink, out[i].1) {
      ShownIsWritten(v, i, ads[ks[i]], ev, out[i].0.sink, out[i].1);
    }
    hide *;
  }

  lemma ShownIsWritten(v: LoggerView, i: nat, a: AppenderDefine, ev: LP.Event, sink: Sink, text: string)
    requires i < |v.appenders| && Shows(v.appenders[i], a) && sink == v.appenders[i].sink
    requires text == LP.Render(LP.Compile(PatternOf(v, i)).items, ev)
    ensures WroteOne(a, v.formatter, ev, sink, text)
  {
    hide LP.Meaning, LP.Render, LP.Compile, LP.Complete, LP.AnyBad, LP.Tokens;
    var p := PatternOf(v, i);
    if ValidPattern(p) && LP.Complete(LP.Tokens(p)) {
      LP.MeaningExact(p);
    }
  }

  lemma LooksDefined(m: LoggerTable, hist: seq<seq<LogDefine>>, n: string, d: LogDefine)
    requires FindDef(Last(hist), n) == Some(d)
    ensures FromScratch(At(m, n), hist, n) ==
            Some(LoggerView(d.level, LastFormatter(hist, n, GetOr(m, n).formatter), DefinedAppenders(d.appenders)))
  {
    hide FindDef, LastFormatter, DefinedAppenders;
  }

  class LoggerManager {
    const root: Logger
    var loggers: map<string, Logger>
    /** What the loggers look like, by name. */
    ghost var Table: LoggerTable
    ghost var Repr: set<object>

    constructor ()
      ensures Valid() && fresh(Repr)
      ensures Table == map[ROOT := NEW_ROOT] && loggers == map[ROOT := root]
      ensures root.level == Debug && root.formatter.pattern == DEFAULT_PATTERN
      ensures |root.appenders| == 1 && root.appenders[0].sink == Stdout && root.appenders[0].level == Debug
    {
      var r, a := NewRoot();
      hide *;
      root := r;
      loggers := map[ROOT := r];
      Table := map[ROOT := NEW_ROOT];
      Repr := {r, a};
      new;
      StartsValid(r, a);
    }

    lemma StartsValid(r: Logger, a: LogAppender)
      requires root == r && loggers == map[ROOT := r] && Table == map[ROOT := NEW_ROOT] && Repr == {r, a}
      requires r.Valid() && r.name == ROOT && r.root == null && r.appenders == [a] && r.View() == NEW_ROOT
      ensures Valid()
    {
      hide Logger.Valid, Logger.View, Logger.Inherits, LogAppender.Valid, LogAppender.View;
      assert Registered(ROOT, r);
    }

    /** The logger `l` is the one of name `n`: it carries the name and falls back on root. */
    ghost predicate Registered(n: string, l: Logger)
      reads this, Repr
    {
      && l in Repr && (forall a :: a in l.appenders ==> a in Repr)
      && l.name == n && l.root == (if n == ROOT then null else root)
      && l.Valid() && n in Table && Table[n] == l.View()
    }

    ghost predicate Valid()
      reads this, Repr
    {
      && this !in Repr && ROOT in loggers && loggers[ROOT] == root
      && Table.Keys == loggers.Keys
      && forall n :: n in loggers ==> Registered(n, loggers[n])
    }

    method GetLogger(name: string) returns (l: Logger)
      requires Valid()
      modifies this`loggers, this`Table, this`Repr
      ensures Valid() && fresh(Repr - old(Repr))
      ensures loggers == old(loggers)[name := l] && (name in old(loggers) ==> l == old(loggers)[name])
      ensures name !in old(loggers) ==>
                l.level == Debug && l.appenders == [] && l.formatter.pattern == DEFAULT_PATTERN
      ensures Table == old(Table)[name := GetOr(old(Table), name)]
    {
      hide Registered;
      if name in loggers {
        l := loggers[name];
        return;
      }
      l := NewLogger(name);
    }

    /** The registration of a logger not asked for before. */
    method NewLogger(name: string) returns (l: Logger)
      requires Valid() && name !in loggers
      modifies this`loggers, this`Table, this`Repr
      ensures Valid() && fresh(Repr - old(Repr))
      ensures loggers == old(loggers)[name := l]
      ensures l.level == Debug && l.appenders == [] && l.formatter.pattern == DEFAULT_PATTERN
      ensures Table == old(Table)[name := NEW_LOGGER]
    {
      l := new Logger(name, root);
      hide *;
      Enrol(name, l);
    }

    method Enrol(name: string, l: Logger)
      requires Valid() && name !in loggers && l !in Repr && l.appenders == [] && l.Valid()
      requires l.name == name && l.root == root && l.View() == NEW_LOGGER
      modifies this`loggers, this`Table, this`Repr
      ensures Valid() && Repr == old(Repr) + {l}
      ensures loggers == old(loggers)[name := l] && Table == old(Table)[name := NEW_LOGGER]
    {
      hide Logger.Valid, Logger.View, Logger.Inherits, LogAppender.Valid, LogAppender.View;
      loggers := loggers[name := l];
      Table := Table[name := NEW_LOGGER];
      Repr := Repr + {l};
      forall n | n in loggers ensures Registered(n, loggers[n]) {
        if n != name {
          assert old(Registered(n, loggers[n]));
        }
      }
      hide Registered;
    }

    /** The registry is in order, the logger of one name aside. */
    ghost predicate ValidBut(name: string)
      reads this, Repr
    {
      && this !in Repr && ROOT in loggers && loggers[ROOT] == root && name in loggers
      && Table.Keys == loggers.Keys
      && forall n :: n in loggers && n != name ==> Registered(n, loggers[n])
    }

    /** A logger that has changed is entered as it looks now. */
    ghost method Reenter(name: string, l: Logger)
      requires ValidBut(name) && l in Repr && l.name == name && l.root == (if name == ROOT then null else root)
      requires l.Valid() && loggers[name] == l && this !in set a | a in l.appenders :: a as object
      modifies this`Table, this`Repr
      ensures Valid() && Table == old(Table)[name := l.View()]
      ensures Repr == old(Repr) + set a | a in l.appenders :: a as object
    {
      hide Logger.Valid, Logger.View, Logger.Inherits, LogAppender.Valid, LogAppender.View;
      Table := Table[name := l.View()];
      Repr := Repr + set a | a in l.appenders :: a as object;
      assert Registered(name, l);
      forall n | n in loggers ensures Registered(n, loggers[n]) {
        if n != name {
          assert old(Registered(n, loggers[n]));
        }
      }
      hide Registered;
    }

    /** Applies a definition to the logger of its name; the others are untouched. */
    method Patch(l: Logger, d: LogDefine)
      requires Valid() && d.name in loggers && loggers[d.name] == l
      modifies this`Table, this`Repr, Repr
      ensures Valid() && fresh(Repr - old(Repr))
      ensures Table == old(Table)[d.name := Configured(old(Table)[d.name], d)]
    {
      hide Logger.Valid, Logger.View, Logger.Inherits, LogAppender.Valid, LogAppender.View, Configured;
      assert Registered(d.name, l);
      l.ApplyDefinition(d);
      forall n | n in loggers && n != d.name ensures Registered(n, loggers[n]) {
        var m := loggers[n];
        assert old(Registered(n, m)) && m != l;
        assert m.appenders == old(m.appenders) && m.Valid() && m.View() == old(m.View());
      }
      hide Registered;
      Reenter(d.name, l);
    }

    /** Retires a logger whose definition has gone; the others are untouched. */
    method Drop(l: Logger, name: string)
      requires Valid() && name in loggers && loggers[name] == l
      modifies this`Table, this`Repr, Repr
      ensures Valid() && Repr == old(Repr)
      ensures Table == old(Table)[name := Removed(old(Table)[name])]
    {
      hide Logger.Valid, Logger.View, Logger.Inherits, LogAppender.Valid, LogAppender.View, Removed;
      assert Registered(name, l);
      l.Retire();
      forall n | n in loggers && n != name ensures Registered(n, loggers[n]) {
        var m := loggers[n];
        assert old(Registered(n, m)) && m != l;
        assert m.appenders == old(m.appenders) && m.Valid() && m.View() == old(m.View());
      }
      hide Registered;
      Reenter(name, l);
    }

    /** What the logger that writes for `name` looks like: its own, or root when it has no appenders. */
    ghost function WriterView(name: string): LoggerView
      requires Valid() && name in Table
      reads this, Repr
    {
      if Table[name].appenders != [] then Table[name] else Table[ROOT]
    }

    /** Logging to a registered logger. */
    method LogTo(name: string, ev: LP.Event) returns (out: seq<(LogAppender, string)>)
      requires Valid() && name in loggers && WriterView(name).appenders != []
      ensures Writes(WriterView(name), ev, out)
    {
      var l := loggers[name];
      assert Registered(name, l) && Registered(ROOT, root);
      out := l.Log(ev);
      WritesView(l.Writer(), ev, out);
    }

    /**
     The listener: `logs` is about to change from `olds` to `news`. It first logs `ev` to
     root, through a null pointer if root has no appender; nothing is patched then.
     */
    method OnLogsChanged(news: seq<LogDefine>, olds: seq<LogDefine>, ev: LP.Event) returns (ok: bool)
      requires Valid()
      modifies this`loggers, this`Table, this`Repr, Repr
      ensures Valid() && fresh(Repr - old(Repr)) && ROOT in Table
      ensures ok <==> RootAnswers(old(Table))
      ensures Table == if ok then Change(old(Table), news, olds) else old(Table)
    {
      ok := LogToRoot(ev);
      if ok {
        PatchAll(news, olds);
      }
      assert ROOT in loggers;
    }

    method LogToRoot(ev: LP.Event) returns (ok: bool)
      requires Valid()
      ensures ok <==> RootAnswers(Table)
    {
      hide Logger.Valid, Logger.Inherits;
      assert Registered(ROOT, root);
      ok := root.appenders != [];
      if ok {
        var out := LogTo(ROOT, ev);
      }
    }

    /** The two loops of the listener. */
    method PatchAll(news: seq<LogDefine>, olds: seq<LogDefine>)
      requires Valid()
      modifies this`loggers, this`Table, this`Repr, Repr
      ensures Valid() && fresh(Repr - old(Repr))
      ensures Table == Change(old(Table), news, olds)
    {
      hide Valid;
      assert news[..0] == [] && olds[..0] == [];
      for k := 0 to |news|
        invariant Valid() && fresh(Repr - old(Repr))
        invariant Table == AddOrChangeAll(old(Table), news[..k], olds)
      {
        var i := news[k];
        assert news[..k + 1][..k] == news[..k];
        var it := FindDef(olds, i.name);
        if it == Some(i) {
          continue;
        }
        var logger := GetLogger(i.name);
        Patch(logger, i);
        UpdatedTwice(AddOrChangeAll(old(Table), news[..k], olds), i.name,
                     GetOr(AddOrChangeAll(old(Table), news[..k], olds), i.name), Table[i.name]);
      }
      assert news[..|news|] == news;
      ghost var changed := Table;
      for k := 0 to |olds|
        invariant Valid() && fresh(Repr - old(Repr))
        invariant Table == DeleteAll(changed, olds[..k], news)
      {
        var j := olds[k];
        assert olds[..k + 1][..k] == olds[..k];
        var it := FindDef(news, j.name);
        if it.None? {
          var logger := GetLogger(j.name);
          Drop(logger, j.name);
          UpdatedTwice(DeleteAll(changed, olds[..k], news), j.name,
                       GetOr(DeleteAll(changed, olds[..k], news), j.name), Table[j.name]);
        }
      }
      assert olds[..|olds|] == olds;
    }

    /** `logs` is given the value `news` while it has the value `olds`: an equal one does nothing. */
    method SetValue(news: seq<LogDefine>, olds: seq<LogDefine>, ev: LP.Event) returns (ok: bool)
      requires Valid()
      modifies this`loggers, this`Table, this`Repr, Repr
      ensures Valid() && fresh(Repr - old(Repr))
      ensures ok <==> news == olds || RootAnswers(old(Table))
      ensures Table == if news == olds || !ok then old(Table) else Change(old(Table), news, olds)
    {
      ok := true;
      if news != olds {
        ok := OnLogsChanged(news, olds, ev);
      }
    }

    /** The values of a history, one after the other, up to the first change that fails. */
    method SetEach(hist: seq<seq<LogDefine>>, ev: LP.Event) returns (done: nat)
      requires Valid()
      modifies this`loggers, this`Table, this`Repr, Repr
      ensures Valid() && fresh(Repr - old(Repr)) && done <= |hist|
      ensures Table == Run(old(Table), hist[..done]) && AllHeard(old(Table), hist[..done])
      ensures done < |hist| ==> hist[done] != Last(hist[..done]) && !RootAnswers(Table)
    {
      hide *;
      ghost var m := Table;
      var val := [];
      NothingRun(m);
      done := 0;
      assert hist[..0] == [];
      while done < |hist|
        invariant Valid() && fresh(Repr - old(Repr)) && done <= |hist|
        invariant val == Last(hist[..done]) && Table == Run(m, hist[..done]) && AllHeard(m, hist[..done])
      {
        RunNext(m, hist, done);
        var ok := SetValue(hist[done], val, ev);
        if !ok {
          return;
        }
        val := hist[done];
        done := done + 1;
      }
    }

    /**
     A history of values given to `logs`, which starts empty, up to the first change, if
     there is any, that finds root without an appender. Every name is as if the last
     configuration that was set had been applied from scratch. It goes to the end exactly
     when the configurations keep an appender on root.
     */
    method SetLogs(hist: seq<seq<LogDefine>>, ev: LP.Event) returns (done: nat)
      requires Valid() && forall k :: 0 <= k < |hist| ==> DistinctNames(hist[k])
      modifies this`loggers, this`Table, this`Repr, Repr
      ensures Valid() && fresh(Repr - old(Repr)) && done <= |hist|
      ensures done == |hist| <==> KeepsRoot(RootAnswers(old(Table)), hist)
      ensures done < |hist| ==> hist[done] != Last(hist[..done]) && !RootKept(RootAnswers(old(Table)), hist[..done])
      ensures forall n :: At(Table, n) == FromScratch(At(old(Table), n), hist[..done], n)
      ensures AsConfigured(hist[..done])
    {
      hide *;
      ghost var m := Table;
      RootIsThere();
      done := SetEach(hist, ev);
      SetAsFar(m, hist, done);
      FollowsConfigured(m, hist[..done]);
    }

    /**
     The loggers themselves after `hist`: a defined one has the level and the appenders
     of its definition, one no longer defined has level 0 and no appenders, and each
     has the last valid pattern that it was given.
     */
    ghost predicate AsConfigured(hist: seq<seq<LogDefine>>)
      requires Valid()
      reads this, Repr
    {
      && (forall d :: d in Last(hist) ==> d.name in loggers && Follows(d.name, d))
      && (forall n :: EverConfigured(hist, n) && (forall d :: d in Last(hist) ==> d.name != n) ==>
            n in loggers && loggers[n].level == Unknown && loggers[n].appenders == [])
      && (forall n, k: nat :: k < |hist| && Gives(hist, n, k) && (forall j :: k < j < |hist| ==> !Gives(hist, n, j)) ==>
            n in loggers && loggers[n].formatter.pattern == FindDef(hist[k], n).value.formatter)
    }

    /** The logger of name `n` has the level and the appenders of the definition `d`. */
    ghost predicate Follows(n: string, d: LogDefine)
      requires Valid() && n in loggers
      reads this, Repr
    {
      assert Registered(n, loggers[n]);
      loggers[n].level == d.level && AllMade(loggers[n].appenders, d.appenders)
    }

    lemma FollowsConfigured(m: LoggerTable, hist: seq<seq<LogDefine>>)
      requires Valid() && forall k :: 0 <= k < |hist| ==> DistinctNames(hist[k])
      requires forall n :: At(Table, n) == FromScratch(At(m, n), hist, n)
      ensures AsConfigured(hist)
    {
      hide Registered, Follows, DistinctNames, FromScratch, ValidPattern;
      forall d | d in Last(hist) ensures d.name in loggers && Follows(d.name, d) {
        DefinedFollows(m, hist, d);
      }
      forall n | EverConfigured(hist, n) && forall d :: d in Last(hist) ==> d.name != n
        ensures n in loggers && loggers[n].level == Unknown && loggers[n].appenders == []
      {
        UndefinedIsRetired(m, hist, n);
      }
      forall n, k: nat | k < |hist| && Gives(hist, n, k) && forall j :: k < j < |hist| ==> !Gives(hist, n, j)
        ensures n in loggers && loggers[n].formatter.pattern == FindDef(hist[k], n).value.formatter
      {
        GivenIsUsed(m, hist, n, k);
      }
    }

    lemma DefinedFollows(m: LoggerTable, hist: seq<seq<LogDefine>>, d: LogDefine)
      requires Valid() && d in Last(hist) && DistinctNames(Last(hist))
      requires At(Table, d.name) == FromScratch(At(m, d.name), hist, d.name)
      ensures d.name in loggers && Follows(d.name, d)
    {
      hide LastFormatter, DefinedAppenders, ValidPattern;
      var k :| 0 <= k < |Last(hist)| && Last(hist)[k] == d;
      FindDefAt(Last(hist), k);
      var l := loggers[d.name];
      assert Registered(d.name, l) && Table[d.name] == l.View();
      assert l.View().appenders == DefinedAppenders(d.appenders);
      forall i | 0 <= i < |l.appenders|
        ensures l.appenders[i].Valid() && l.appenders[i].View() == DefinedAppenders(d.appenders)[i]
      {
        assert l.appenders[i] in l.appenders && l.View().appenders[i] == l.appenders[i].View();
      }
      DefinedAreMade(l.appenders, d.appenders);
    }

    lemma UndefinedIsRetired(m: LoggerTable, hist: seq<seq<LogDefine>>, n: string)
      requires Valid() && EverConfigured(hist, n) && forall d :: d in Last(hist) ==> d.name != n
      requires At(Table, n) == FromScratch(At(m, n), hist, n)
      ensures n in loggers && loggers[n].level == Unknown && loggers[n].appenders == []
    {
      hide EverConfigured, LastFormatter;
      FindDefIn(Last(hist), n);
      assert Registered(n, loggers[n]);
      assert |loggers[n].View().appenders| == |loggers[n].appenders|;
    }

    lemma GivenIsUsed(m: LoggerTable, hist: seq<seq<LogDefine>>, n: string, k: nat)
      requires Valid() && k < |hist| && Gives(hist, n, k) && forall j :: k < j < |hist| ==> !Gives(hist, n, j)
      requires At(Table, n) == FromScratch(At(m, n), hist, n)
      ensures n in loggers && loggers[n].formatter.pattern == FindDef(hist[k], n).value.formatter
    {
      hide ValidPattern, LastFormatter, FindDef;
      LastFormatterGiven(hist, n, if At(m, n).Some? then At(m, n).value.formatter else DEFAULT_PATTERN, k);
      assert EverConfigured(hist, n);
      assert Registered(n, loggers[n]);
    }

    lemma RootIsThere()
      requires Valid()
      ensures ROOT in Table
    {
    }

    /**
     From configuration to text: after a history that keeps an appender on root, logging
     to a configured logger writes once to each appender that its definition names, in
     order, and what is written is what the pattern means: the appender's own valid one,
     else the last valid one that was configured for the logger.
     */
    method ConfigureAndLog(hist: seq<seq<LogDefine>>, n: string, notice: LP.Event, ev: LP.Event)
      returns (ok: bool, out: seq<(LogAppender, string)>)
      requires Valid() && forall k :: 0 <= k < |hist| ==> DistinctNames(hist[k])
      requires FindDef(Last(hist), n).Some? && HasKnown(FindDef(Last(hist), n).value.appenders)
      modifies this`loggers, this`Table, this`Repr, Repr
      ensures Valid() && (ok <==> KeepsRoot(RootAnswers(old(Table)), hist))
      ensures ok ==> Wrote(FindDef(Last(hist), n).value.appenders, LastFormatter(hist, n, GetOr(old(Table), n).formatter), ev, out)
    {
      hide *;
      ghost var m := Table;
      var done := SetLogs(hist, notice);
      ok := done == |hist|;
      if !ok {
        return false, [];
      }
      assert hist[..|hist|] == hist;
      ghost var d := FindDef(Last(hist), n).value;
      LooksDefined(m, hist, n, d);
      out := LogConfigured(n, d, LastFormatter(hist, n, GetOr(m, n).formatter), ev);
    }

    /** Logging to a logger that looks as its definition says. */
    method LogConfigured(n: string, ghost d: LogDefine, ghost shared: string, ev: LP.Event)
      returns (out: seq<(LogAppender, string)>)
      requires Valid() && HasKnown(d.appenders)
      requires At(Table, n) == Some(LoggerView(d.level, shared, DefinedAppenders(d.appenders)))
      ensures Wrote(d.appenders, shared, ev, out)
    {
      hide Registered, DefinedAppenders, HasKnown, Wrote, Writes;
      ghost var ks := DefinedAppendersExact(d.appenders);
      out := LogTo(n, ev);
      WrittenAsDefined(Table[n], d.appenders, ev, out);
    }
  }
}
