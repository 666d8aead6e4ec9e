/** The log formatter of src/log.cpp: a pattern, compiled once into items and run on each event. */
module LogFormatter {
  import opened Basics
  import opened LogPattern

  /**
   The scan of `p` has reached `i` with pending text `str`, items `done` and the error flag
   `error`: what it has, completed with what remains to be read, is the compiled pattern.
   */
  ghost predicate Scanned(p: string, i: nat, str: string, done: seq<Item>, error: bool)
    requires i <= |p|
  {
    && done + Assemble(str, Lex(p, i)).items == Compile(p).items
    && (error || AnyBad(Lex(p, i)) <==> AnyBad(Tokens(p)))
  }

  lemma ScanStarts(p: string)
    ensures Scanned(p, 0, "", [], false)
  {
  }

  /** One token further. */
  lemma ScanStep(p: string, i: nat, str: string, done: seq<Item>, error: bool)
    requires i < |p| && Scanned(p, i, str, done, error)
    ensures var (t, n) := Next(p, i);
            var s := Step(str, t);
            Scanned(p, n, s.pending, done + s.items, error || t.Bad())
  {
    var (t, n) := Next(p, i);
    var ts, rest, s := Lex(p, i), Lex(p, n), Step(str, t);
    assert ts[0] == t && ts[1..] == rest;
    Assoc(done, s.items, Assemble(s.pending, rest).items);
    BadStep(ts);
  }

  lemma BadStep(ts: seq<Token>)
    requires ts != []
    ensures AnyBad(ts) <==> ts[0].Bad() || AnyBad(ts[1..])
  {
    forall k | 0 < k < |ts| ensures ts[k] == ts[1..][k - 1] {
    }
    if k :| 0 <= k < |ts[1..]| && ts[1..][k].Bad() {
      assert ts[k + 1].Bad();
    }
  }

  /** A token that flushes the pending text and adds an item. */
  lemma ScanItem(p: string, i: nat, str: string, done: seq<Item>, error: bool, t: Token, n: nat)
    requires i < |p| && Scanned(p, i, str, done, error) && Next(p, i) == (t, n)
    requires t.Emits().Some? && !t.LonePercent?
    ensures Scanned(p, n, "", done + Flush(str) + [t.Emits().value], error || t.Bad())
  {
    ScanStep(p, i, str, done, error);
    Assoc(done, Flush(str), [t.Emits().value]);
  }

  // The same, branch by branch of the scan.

  lemma ScanChar(p: string, i: nat, str: string, done: seq<Item>, error: bool)
    requires i < |p| && Scanned(p, i, str, done, error)
    requires p[i] != '%'
    ensures Scanned(p, i + 1, str + [p[i]], done, error)
  {
    ScanStep(p, i, str, done, error);
    assert done + [] == done;
  }

  lemma ScanLone(p: string, i: nat, str: string, done: seq<Item>, error: bool)
    requires i < |p| && Scanned(p, i, str, done, error)
    requires p[i] == '%' && i + 1 == |p|
    ensures Scanned(p, i + 1, str, done + [Text("<error format %>")], true)
  {
    assert Next(p, i) == (LonePercent, i + 1);
    ScanStep(p, i, str, done, error);
  }

  lemma ScanPercent(p: string, i: nat, str: string, done: seq<Item>, error: bool)
    requires i < |p| && Scanned(p, i, str, done, error)
    requires p[i] == '%' && i + 1 < |p| && p[i + 1] == '%'
    ensures Scanned(p, i + 2, str + ['%'], done, error)
  {
    assert Next(p, i) == (Lit('%'), i + 2);
    ScanStep(p, i, str, done, error);
    assert done + [] == done;
  }

  lemma ScanUnknown(p: string, i: nat, str: string, done: seq<Item>, error: bool)
    requires i < |p| && Scanned(p, i, str, done, error)
    requires p[i] == '%' && i + 1 < |p| && p[i + 1] != '%' && p[i + 1] != 'd' && LookUp(p[i + 1]).None?
    ensures Scanned(p, i + 2, "", done + Flush(str) + [Text("<error format %" + [p[i + 1]] + ">")], true)
  {
    assert Next(p, i) == (Unknown(p[i + 1]), i + 2);
    hide Next, NextDate, Scanned;
    ScanItem(p, i, str, done, error, Unknown(p[i + 1]), i + 2);
  }

  lemma ScanDirective(p: string, i: nat, str: string, done: seq<Item>, error: bool)
    requires i < |p| && Scanned(p, i, str, done, error)
    requires p[i] == '%' && i + 1 < |p| && p[i + 1] != '%' && p[i + 1] != 'd' && LookUp(p[i + 1]).Some?
    ensures Scanned(p, i + 2, "", done + Flush(str) + [Field(LookUp(p[i + 1]).value)], error)
  {
    assert Next(p, i) == (Dir(LookUp(p[i + 1]).value), i + 2);
    hide Next, NextDate, Scanned;
    ScanItem(p, i, str, done, error, Dir(LookUp(p[i + 1]).value), i + 2);
  }

  lemma ScanFinalDate(p: string, i: nat, str: string, done: seq<Item>, error: bool)
    requires i < |p| && Scanned(p, i, str, done, error)
    requires p[i] == '%' && i + 1 < |p| && p[i + 1] == 'd' && i + 2 == |p|
    ensures Scanned(p, i + 2, "", done + Flush(str), error)
  {
    assert Next(p, i) == (FinalDate, i + 2);
    ScanStep(p, i, str, done, error);
  }

  lemma ScanBareDate(p: string, i: nat, str: string, done: seq<Item>, error: bool)
    requires i < |p| && Scanned(p, i, str, done, error)
    requires p[i] == '%' && i + 1 < |p| && p[i + 1] == 'd' && i + 2 < |p| && p[i + 2] != '{'
    ensures Scanned(p, i + 2, "", done + Flush(str) + [TimeItem("")], error)
  {
    assert Next(p, i) == (BareDate, i + 2);
    hide Next, NextDate, Scanned;
    ScanItem(p, i, str, done, error, BareDate, i + 2);
  }

  lemma ScanOpenAtEnd(p: string, i: nat, str: string, done: seq<Item>, error: bool)
    requires i < |p| && Scanned(p, i, str, done, error)
    requires p[i] == '%' && i + 1 < |p| && p[i + 1] == 'd' && i + 3 == |p| && p[i + 2] == '{'
    ensures Scanned(p, i + 3, "", done + Flush(str) + [Text("<error format %d{ >")], true)
  {
    assert Next(p, i) == (OpenAtEnd, i + 3);
    hide Next, NextDate, Scanned;
    ScanItem(p, i, str, done, error, OpenAtEnd, i + 3);
  }

  lemma ScanUnclosed(p: string, i: nat, str: string, done: seq<Item>, error: bool)
    requires i < |p| && Scanned(p, i, str, done, error)
    requires p[i] == '%' && i + 1 < |p| && p[i + 1] == 'd' && i + 3 < |p| && p[i + 2] == '{' && Close(p, i + 3) == |p|
    ensures Scanned(p, i + 4, "", done + Flush(str) + [Text("<error format %d{" + p[i + 3..] + " >")], true)
  {
    assert Next(p, i) == (Unclosed(p[i + 3..]), i + 4);
    hide Next, NextDate, Scanned;
    ScanItem(p, i, str, done, error, Unclosed(p[i + 3..]), i + 4);
  }

  lemma NextClosed(p: string, i: nat) returns (t: Token)
    requires i + 3 < |p| && p[i] == '%' && p[i + 1] == 'd' && p[i + 2] == '{' && Close(p, i + 3) < |p|
    ensures Next(p, i) == (t, Close(p, i + 3) + 1) && t == Date(p[i + 3..Close(p, i + 3)])
  {
    t := Date(p[i + 3..Close(p, i + 3)]);
  }

  lemma ScanClosed(p: string, i: nat, str: string, done: seq<Item>, error: bool)
    requires i < |p| && Scanned(p, i, str, done, error)
    requires p[i] == '%' && i + 1 < |p| && p[i + 1] == 'd' && i + 3 < |p| && p[i + 2] == '{' && Close(p, i + 3) < |p|
    ensures var k := Close(p, i + 3);
            Scanned(p, k + 1, "", done + Flush(str) + [TimeItem(p[i + 3..k])], error)
  {
    hide Next, NextDate, Scanned, Flush, TimeItem;
    var t := NextClosed(p, i);
    ScanItem(p, i, str, done, error, t, Close(p, i + 3) + 1);
  }

  lemma ScanEnds(p: string, str: string, done: seq<Item>, error: bool)
    requires Scanned(p, |p|, str, done, error)
    ensures done == Compile(p).items && (error <==> AnyBad(Tokens(p)))
  {
  }

  /** A formatter is made once, from its pattern, and never changes. */
  class LogFormatter {
    const pattern: string
    const error: bool
    const items: seq<Item>

    /** The formatter holds the compiled form of its pattern. */
    ghost predicate Valid() {
      items == Compile(pattern).items && (error <==> AnyBad(Tokens(pattern)))
    }

    constructor (pattern: string)
      ensures this.pattern == pattern && Valid()
    {
      this.pattern := pattern;
      var compiled, bad := Init(pattern);
      items, error := compiled, bad;
    }

    /** The scan that compiles the pattern. */
    static method Init(pattern: string) returns (items: seq<Item>, error: bool)
      ensures items == Compile(pattern).items
      ensures error <==> AnyBad(Tokens(pattern))
    {
      hide Scanned, Compile, Assemble, Lex, Tokens, AnyBad, Next, NextDate, Step;
      items, error := [], false;
      var str := "";
      var i := 0;
      ScanStarts(pattern);
      while i < |pattern|
        invariant i <= |pattern| && Scanned(pattern, i, str, items, error)
      {
        ghost var k, lit, done := i, str, items;
        if pattern[i] != '%' {
          ScanChar(pattern, k, lit, done, error);
          str := str + [pattern[i]];
          i := i + 1;
          continue;
        }
        if i + 1 >= |pattern| {
          ScanLone(pattern, k, lit, done, error);
          items := items + [Text("<error format %>")];
          error := true;
          i := i + 1;
          continue;
        }
        i := i + 1;
        if pattern[i] == '%' {
          ScanPercent(pattern, k, lit, done, error);
          str := str + ['%'];
          i := i + 1;
          continue;
        }
        if |str| > 0 {
          items := items + [Text(str)];
          str := "";
        }
        assert items == done + Flush(lit) && str == "";
        hide Flush;
        if pattern[i] != 'd' {
          var tmp := pattern[i];
          match LookUp(tmp) {
            case None =>
              ScanUnknown(pattern, k, lit, done, error);
              items := items + [Text("<error format %" + [tmp] + ">")];
              error := true;
            case Some(d) =>
              ScanDirective(pattern, k, lit, done, error);
              items := items + [Field(d)];
          }
        } else {
          if i + 1 >= |pattern| {
            ScanFinalDate(pattern, k, lit, done, error);
            i := i + 1;
            continue;
          }
          if pattern[i + 1] != '{' {
            ScanBareDate(pattern, k, lit, done, error);
            items := items + [TimeItem("")];
            i := i + 1;
            continue;
          }
          i := i + 1;
          if i + 1 >= |pattern| {
            ScanOpenAtEnd(pattern, k, lit, done, error);
            items := items + [Text("<error format %d{ >")];
            error := true;
            i := i + 1;
            continue;
          }
          i := i + 1;
          var index := Close(pattern, i);
          if index == |pattern| {
            ScanUnclosed(pattern, k, lit, done, error);
            items := items + [Text("<error format %d{" + pattern[i..] + " >")];
            error := true;
            i := i + 1;
            continue;
          }
          ScanClosed(pattern, k, lit, done, error);
          items := items + [TimeItem(pattern[i..index])];
          i := index;
        }
        i := i + 1;
      }
      ScanEnds(pattern, str, items, error);
    }

    /** Runs the items on an event, in order. */
    method Format(ev: Event) returns (os: string)
      ensures os == Render(items, ev)
    {
      os := "";
      for k := 0 to |items|
        invariant os + Render(items[k..], ev) == Render(items, ev)
      {
        assert items[k..][0] == items[k] && items[k..][1..] == items[k + 1..];
        Assoc(os, RenderItem(items[k], ev), Render(items[k + 1..], ev));
        os := os + RenderItem(items[k], ev);
      }
      assert os + "" == os;
    }
  }

  /**
   The formatter of an error-free pattern that ends in a directive other than a bare
   %d writes the text that the pattern means.
   */
  method FormatsMeaning(f: LogFormatter, ev: Event) returns (os: string)
    requires f.Valid()
    ensures !f.error && Complete(Tokens(f.pattern)) ==> os == Meaning(Tokens(f.pattern), ev)
  {
    os := f.Format(ev);
    if !f.error {
      MeaningExact(f.pattern);
    }
  }
}
