/**
 Loggers and appenders of src/log.cpp as heap objects: who shares which formatter, what
 is written where, and the listener that patches the loggers when the `logs`
 configuration changes.
 */
module Loggers {
  import opened Basics
  import LP = LogPattern
  import opened LogFormatter
  import opened LogConfig

  class LogAppender {
    const sink: Sink
    var level: Level
    var hasFormatter: bool
    var formatter: LogFormatter?
    /** The one logger that the appender has been added to. */
    ghost var owner: Logger?

    constructor (sink: Sink)
      ensures this.sink == sink && level == Debug && !hasFormatter && formatter == null && owner == null && Valid()
    {
      this.sink := sink;
      level, hasFormatter, formatter, owner := Debug, false, null, null;
    }

    method SetLevel(level: Level)
      modifies this`level
      ensures this.level == level
    {
      this.level := level;
    }

    /** A formatter of its own is there, and any formatter is a compiled one. */
    ghost predicate Valid()
      reads this
    {
      (hasFormatter ==> formatter != null) && (formatter != null ==> formatter.Valid())
    }

    /**
     Gives the appender a formatter of its own, or takes any away. A logger that the
     appender is attached to keeps its inheritance exactly when a formatter is given:
     without one the appender has none, not even the logger's.
     */
    method SetFormatter(f: LogFormatter?)
      requires f != null ==> f.Valid()
      modifies this`formatter, this`hasFormatter
      ensures Valid() && formatter == f && (hasFormatter <==> f != null)
      ensures forall m: Logger | old(allocated(m)) && this in m.appenders && old(m.Inherits()) :: m.Inherits() <==> f != null
      ensures forall m: Logger | old(allocated(m)) && this !in m.appenders :: m.Inherits() <==> old(m.Inherits())
    {
      formatter := f;
      hasFormatter := f != null;
    }

    /** The appender as its definition sees it; `own` is the pattern of a formatter of its own. */
    ghost function View(): AppenderView
      reads this
    {
      AppenderView(sink, level, if hasFormatter && formatter != null then Some(formatter.pattern) else None)
    }
  }

  /** The appender of one definition, with a formatter of its own if a valid one is given. */
  method NewAppender(a: AppenderDefine) returns (ap: LogAppender)
    requires a.kind == 1 || a.kind == 2
    ensures fresh(ap) && ap.Valid() && ap.owner == null && ap.View() == DefinedAppender(a)
    ensures a.kind == 1 ==> ap.sink == File(a.file)
    ensures a.kind == 2 ==> ap.sink == Stdout
    ensures ap.level == a.level
    ensures ap.hasFormatter <==> a.formatter != "" && ValidPattern(a.formatter)
    ensures if ap.hasFormatter then ap.formatter != null && ap.formatter.pattern == a.formatter else ap.formatter == null
  {
    if a.kind == 1 {
      ap := new LogAppender(File(a.file));
    } else {
      ap := new LogAppender(Stdout);
    }
    ap.SetLevel(a.level);
    if a.formatter != "" {
      var fmt := new LogFormatter(a.formatter);
      if !fmt.error {
        ap.SetFormatter(fmt);
      }
    }
  }

  /** The appender is the one that its definition asks for. */
  ghost predicate Made(ap: LogAppender, a: AppenderDefine)
    reads ap
  {
    && (a.kind == 1 ==> ap.sink == File(a.file)) && (a.kind == 2 ==> ap.sink == Stdout) && ap.level == a.level
    && (ap.hasFormatter <==> a.formatter != "" && ValidPattern(a.formatter))
    && (ap.hasFormatter ==> ap.formatter != null && ap.formatter.pattern == a.formatter)
  }

  /** The appenders are those that the definitions of known kind ask for, in order. */
  ghost predicate AllMade(aps: seq<LogAppender>, ads: seq<AppenderDefine>)
    reads aps
  {
    exists ks :: Places(ads, ks) && |aps| == |ks| && forall i :: 0 <= i < |ks| ==> Made(aps[i], ads[ks[i]])
  }

  lemma DefinedAreMade(aps: seq<LogAppender>, ads: seq<AppenderDefine>)
    requires |aps| == |DefinedAppenders(ads)|
    requires forall k :: 0 <= k < |aps| ==> aps[k].Valid() && aps[k].View() == DefinedAppenders(ads)[k]
    ensures AllMade(aps, ads)
  {
    hide DefinedAppenders, ValidPattern;
    var ks := DefinedAppendersExact(ads);
    assert forall i :: 0 <= i < |ks| ==> Made(aps[i], ads[ks[i]]);
  }

  /** What is outside a logger's appenders and fields does not change what it looks like. */
  twostate lemma SameView(l: Logger)
    requires unchanged(l) && forall a :: a in l.appenders ==> unchanged(a)
    requires old(l.Valid())
    ensures l.View() == old(l.View()) && l.Valid()
  {
    forall k | 0 <= k < |l.appenders| ensures l.appenders[k].View() == old(l.appenders[k].View()) {
      assert l.appenders[k] in l.appenders && unchanged(l.appenders[k]);
    }
    assert l.View().appenders == old(l.View()).appenders;
  }

  /** One write to each appender of a logger that looks like `v`, by the compiled form of its pattern. */
  ghost predicate Writes(v: LoggerView, ev: LP.Event, out: seq<(LogAppender, string)>) {
    && |out| == |v.appenders|
    && forall k :: 0 <= k < |out| ==>
         && out[k].0.sink == v.appenders[k].sink
         && out[k].1 == LP.Render(LP.Compile(PatternOf(v, k)).items, ev)
  }

  /** What Log writes, in terms of what the writing logger looks like. */
  lemma WritesView(w: Logger, ev: LP.Event, out: seq<(LogAppender, string)>)
    requires w.Valid() && |out| == |w.appenders|
    requires forall k :: 0 <= k < |out| ==>
               var a := w.appenders[k];
               out[k] == (a, LP.Render((if a.hasFormatter then a.formatter else w.formatter).items, ev))
    ensures Writes(w.View(), ev, out)
  {
    hide LP.Render, LP.Compile, LP.AnyBad, LP.Tokens;
    forall k | 0 <= k < |out|
      ensures out[k].0.sink == w.View().appenders[k].sink
      ensures out[k].1 == LP.Render(LP.Compile(PatternOf(w.View(), k)).items, ev)
    {
      var a := w.appenders[k];
      assert a in w.appenders && a.Valid() && w.View().appenders[k] == a.View();
    }
  }

  class Logger {
    const name: string
    const root: Logger?
    var level: Level
    var appenders: seq<LogAppender>
    var formatter: LogFormatter

    constructor (name: string, root: Logger?)
      ensures this.name == name && this.root == root && Valid() && fresh(formatter)
      ensures level == Debug && appenders == [] && formatter.pattern == DEFAULT_PATTERN && View() == NEW_LOGGER
    {
      this.name, this.root := name, root;
      level := Debug;
      appenders := [];
      formatter := new LogFormatter(DEFAULT_PATTERN);
    }

    /**
     Every appender without a formatter of its own shares the logger's formatter, and
     every other one has a formatter.
     */
    ghost predicate Inherits()
      reads this, appenders
    {
      forall a :: a in appenders ==> if a.hasFormatter then a.formatter != null else a.formatter == formatter
    }

    /** Formatters are shared in this way, are compiled, and the appenders are this logger's only. */
    ghost predicate Valid()
      reads this, appenders
    {
      formatter.Valid() && Inherits() && forall a :: a in appenders ==> a.owner == this && a.Valid()
    }

    ghost function View(): LoggerView
      reads this, appenders
    {
      LoggerView(level, formatter.pattern, seq(|appenders|, k requires 0 <= k < |appenders|
                                                               reads this, appenders => appenders[k].View()))
    }

    method SetLevel(level: Level)
      modifies this`level
      ensures this.level == level
    {
      this.level := level;
    }

    /**
     An appender that has no formatter at all gets the logger's, without making it its own.
     Inheritance goes on to hold exactly if it had none, has one of its own, or still has
     the logger's from an earlier time.
     */
    method AddAppender(a: LogAppender)
      requires a.Valid()
      modifies this`appenders, a`formatter, a`owner
      ensures appenders == old(appenders) + [a] && a.hasFormatter == old(a.hasFormatter)
      ensures a.formatter == if old(a.formatter) == null then formatter else old(a.formatter)
      ensures a.owner == if old(a.owner) == null then this else old(a.owner)
      ensures View().appenders == old(View().appenders) + [old(a.View())]
      ensures old(Inherits()) ==> (Inherits() <==> Fits(a.hasFormatter, old(a.formatter)))
      ensures old(Valid()) && old(a.owner) in {null, this} ==> (Valid() <==> Fits(a.hasFormatter, old(a.formatter)))
    {
      if a.formatter == null {
        a.formatter := formatter;
      }
      if a.owner == null {
        a.owner := this;
      }
      appenders := appenders + [a];
    }

    /** What an appender must bring to be added: no formatter, one of its own, or this logger's. */
    ghost predicate Fits(own: bool, f: LogFormatter?)
      reads this
    {
      own || f == null || f == formatter
    }

    /** Removes the first occurrence of the appender, if there is one. */
    method DelAppender(a: LogAppender)
      modifies this`appenders
      ensures (old(Inherits()) ==> Inherits()) && (old(Valid()) ==> Valid())
      ensures a !in old(appenders) ==> appenders == old(appenders)
      ensures a in old(appenders) ==>
                exists k :: 0 <= k < |old(appenders)| && old(appenders)[k] == a && a !in old(appenders)[..k]
                            && appenders == old(appenders)[..k] + old(appenders)[k + 1..]
    {
      for it := 0 to |appenders|
        invariant appenders == old(appenders) && a !in appenders[..it]
      {
        if appenders[it] == a {
          appenders := appenders[..it] + appenders[it + 1..];
          assert old(appenders)[it] == a;
          return;
        }
      }
    }

    method ClearAppender()
      modifies this`appenders
      ensures appenders == [] && Inherits() && (formatter.Valid() ==> Valid())
    {
      appenders := [];
    }

    /**
     Sets the formatter and hands it to every appender without one of its own. Whatever
     was before, every one of these shares it now.
     */
    method SetFormatter(f: LogFormatter)
      requires f.Valid() && forall a :: a in appenders ==> a.Valid()
      modifies this`formatter, appenders
      ensures Inherits() && formatter == f && (old(Valid()) ==> Valid())
      ensures forall a :: a in appenders ==> a.Valid() && a.level == old(a.level) && a.hasFormatter == old(a.hasFormatter)
      ensures forall a :: a in appenders && a.hasFormatter ==> a.formatter == old(a.formatter)
    {
      formatter := f;
      for it := 0 to |appenders|
        invariant appenders == old(appenders) && formatter == f
        invariant forall a :: a in appenders ==> a.owner == old(a.owner) && a.Valid()
        invariant forall a :: a in appenders ==> a.level == old(a.level) && a.hasFormatter == old(a.hasFormatter)
        invariant forall a :: a in appenders && a.hasFormatter ==> a.formatter == old(a.formatter)
        invariant forall a :: a in appenders[..it] && !a.hasFormatter ==> a.formatter == f
      {
        if !appenders[it].hasFormatter {
          appenders[it].formatter := formatter;
        }
      }
    }

    /** The overload for a pattern: an invalid one is refused and changes nothing. */
    method SetFormatterPattern(format: string)
      requires Valid()
      modifies this`formatter, appenders
      ensures Valid()
      ensures formatter.pattern == if ValidPattern(format) then format else old(formatter.pattern)
      ensures forall a :: a in appenders ==> a.level == old(a.level) && a.hasFormatter == old(a.hasFormatter)
      ensures forall a :: a in appenders && a.hasFormatter ==> a.formatter == old(a.formatter)
      ensures !ValidPattern(format) ==> formatter == old(formatter)
    {
      var newFormat := new LogFormatter(format);
      if newFormat.error {
        return;
      }
      SetFormatter(newFormat);
    }

    /** The logger whose appenders write: this one, or root when this one has none. */
    function Writer(): (w: Logger?)
      reads this
    {
      if appenders != [] then this else root
    }

    /**
     Every appender of the writing logger writes the event once, in order, through its
     own formatter or the logger's. Levels filter nothing. Root has no root of its own,
     so a logger without appenders needs root to have one.
     */
    method Log(ev: LP.Event) returns (out: seq<(LogAppender, string)>)
      requires Writer() != null && Writer().Inherits() && Writer().appenders != []
      ensures |out| == |Writer().appenders|
      ensures forall k :: 0 <= k < |out| ==>
                var a := Writer().appenders[k];
                out[k] == (a, LP.Render((if a.hasFormatter then a.formatter else Writer().formatter).items, ev))
      decreases if appenders == [] then 1 else 0
    {
      if appenders != [] {
        out := [];
        for k := 0 to |appenders|
          invariant |out| == k
          invariant forall j :: 0 <= j < k ==>
                      var a := appenders[j];
                      out[j] == (a, LP.Render((if a.hasFormatter then a.formatter else formatter).items, ev))
        {
          var a := appenders[k];
          var text := a.formatter.Format(ev);
          out := out + [(a, text)];
        }
      } else {
        out := root.Log(ev);
      }
    }

    /** The listener's work on a logger whose definition has gone. */
    method Retire()
      requires Valid()
      modifies this`level, this`appenders
      ensures Valid() && View() == Removed(old(View()))
      ensures level == Unknown && appenders == [] && formatter == old(formatter)
      ensures forall m: Logger | old(allocated(m)) && m != this && old(m.Valid()) ::
                m.appenders == old(m.appenders) && m.Valid() && m.View() == old(m.View())
    {
      SetLevel(Unknown);
      ClearAppender();
      forall m: Logger | old(allocated(m)) && m != this && old(m.Valid())
        ensures m.appenders == old(m.appenders) && m.Valid() && m.View() == old(m.View())
      {
        SameView(m);
      }
    }

    /** The appenders of a definition, one by one, in place of those before. */
    method ReplaceAppenders(ads: seq<AppenderDefine>)
      requires formatter.Valid()
      modifies this`appenders
      ensures Valid() && View().appenders == DefinedAppenders(ads) && AllMade(appenders, ads)
      ensures forall a :: a in appenders ==> fresh(a)
    {
      ClearAppender();
      assert ads[..0] == [];
      for k := 0 to |ads|
        invariant Valid() && View().appenders == DefinedAppenders(ads[..k])
        invariant forall a :: a in appenders ==> fresh(a)
      {
        DefinedAppendersNext(ads, k);
        hide DefinedAppenders, DefinedAppender;
        if ads[k].kind == 1 || ads[k].kind == 2 {
          ghost var before := appenders;
          AddDefined(ads[k]);
          assert appenders == before + [appenders[|before|]];
        }
      }
      assert ads[..|ads|] == ads;
      DefinedAreMade(appenders, ads);
    }

    /** One appender, made from its definition and added. */
    method AddDefined(a: AppenderDefine)
      requires Valid() && (a.kind == 1 || a.kind == 2)
      modifies this`appenders
      ensures Valid() && View().appenders == old(View()).appenders + [DefinedAppender(a)]
      ensures |appenders| == |old(appenders)| + 1 && appenders[..|old(appenders)|] == old(appenders)
      ensures fresh(appenders[|old(appenders)|])
    {
      var ap := NewAppender(a);
      SameView(this);
      AddAppender(ap);
    }

    /** The listener's work on the logger of one definition. */
    method ApplyDefinition(d: LogDefine)
      requires Valid()
      modifies this`level, this`formatter, this`appenders, appenders
      ensures Valid() && View() == Configured(old(View()), d)
      ensures level == d.level && AllMade(appenders, d.appenders)
      ensures formatter.pattern == if d.formatter != "" && ValidPattern(d.formatter) then d.formatter else old(formatter.pattern)
      ensures forall a :: a in appenders ==> fresh(a)
      ensures forall m: Logger | old(allocated(m)) && m != this && old(m.Valid()) ::
                m.appenders == old(m.appenders) && m.Valid() && m.View() == old(m.View())
    {
      Redefine(d);
      hide View, Configured, AllMade, ValidPattern;
      forall m: Logger | old(allocated(m)) && m != this && old(m.Valid())
        ensures m.appenders == old(m.appenders) && m.Valid() && m.View() == old(m.View())
      {
        SameView(m);
      }
    }

    method Redefine(d: LogDefine)
      requires Valid()
      modifies this`level, this`formatter, this`appenders, appenders
      ensures Valid() && View() == Configured(old(View()), d)
      ensures level == d.level && AllMade(appenders, d.appenders)
      ensures formatter.pattern == if d.formatter != "" && ValidPattern(d.formatter) then d.formatter else old(formatter.pattern)
      ensures forall a :: a in appenders ==> fresh(a)
    {
      hide ValidPattern, AllMade;
      SetLevel(d.level);
      if d.formatter != "" {
        SetFormatterPattern(d.formatter);
      }
      ReplaceAppenders(d.appenders);
    }
  }

  /**
   An appender that is taken out and put back keeps the formatter it had: if the logger's
   was set in between, the two are no longer the same.
   */
  method PutBack(l: Logger, a: LogAppender, f: LogFormatter)
    requires l.Valid() && a.Valid() && a !in l.appenders && a.formatter == null && f.Valid()
    modifies l, l.appenders, a
    ensures a in l.appenders && a.formatter == old(l.formatter) && l.formatter == f
    ensures l.Inherits() <==> f == old(l.formatter)
  {
    l.AddAppender(a);
    ghost var before := old(l.appenders);
    l.DelAppender(a);
    assert l.appenders == before;
    l.SetFormatter(f);
    l.AddAppender(a);
  }
}
