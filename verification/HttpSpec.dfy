/**
 Reference description of the incremental HTTP request parser: what the parser has
 to leave behind, as a function of the raw bytes received so far. A byte of the C
 buffer is a `char`. Texts are described by index ranges of one sequence, the
 counterpart of the pointers into one buffer.
 */
module HttpSpec {
  import opened Basics

  const NUL := '\0'
  const BLANKS: set<char> := {' ', '\t'}
  const BREAKS: set<char> := {'\r', '\n'}

  datatype CheckStatus = RequestLine | Header

  datatype LineStatus = LineOk | LineBad | LineOpen

  datatype HttpCode =
    | NoRequest | GetRequest | BadRequest | ForbiddenRequest | InternalError | ClosedConnection

  /** A `char*` into the one buffer, as a position. */
  datatype Pointer = Null | At(pos: nat)

  // ------------------------------------------------------------------
  // Scanning
  // ------------------------------------------------------------------

  ghost predicate NoneIn(s: seq<char>, i: nat, n: nat, cs: set<char>)
    requires i <= n <= |s|
  {
    forall j :: i <= j < n ==> s[j] !in cs
  }

  ghost predicate AllIn(s: seq<char>, i: nat, n: nat, cs: set<char>)
    requires i <= n <= |s|
  {
    forall j :: i <= j < n ==> s[j] in cs
  }

  ghost predicate Agree(s: seq<char>, t: seq<char>, i: nat, n: nat)
    requires i <= n <= |s| && n <= |t|
  {
    forall j :: i <= j < n ==> s[j] == t[j]
  }

  /** The first position of the range holding a character of `cs`, or the end of the range. */
  function Find(s: seq<char>, i: nat, n: nat, cs: set<char>): (k: nat)
    requires i <= n <= |s|
    ensures i <= k <= n
    decreases n - i
  {
    if i == n || s[i] in cs then i else Find(s, i + 1, n, cs)
  }

  /** The first position of the range holding a character outside `cs`, or the end of the range. */
  function Skip(s: seq<char>, i: nat, n: nat, cs: set<char>): (k: nat)
    requires i <= n <= |s|
    ensures i <= k <= n
    decreases n - i
  {
    if i == n || s[i] !in cs then i else Skip(s, i + 1, n, cs)
  }

  /** A scan stops at `k` exactly when nothing before `k` stops it and `k` does. */
  lemma {:induction false} FindIs(s: seq<char>, i: nat, n: nat, cs: set<char>, k: nat)
    requires i <= k <= n <= |s|
    ensures Find(s, i, n, cs) == k <==> NoneIn(s, i, k, cs) && (k < n ==> s[k] in cs)
    decreases n - i
  {
    if i < k && s[i] !in cs {
      FindIs(s, i + 1, n, cs, k);
      assert NoneIn(s, i, k, cs) <==> NoneIn(s, i + 1, k, cs);
    }
  }

  lemma {:induction false} SkipIs(s: seq<char>, i: nat, n: nat, cs: set<char>, k: nat)
    requires i <= k <= n <= |s|
    ensures Skip(s, i, n, cs) == k <==> AllIn(s, i, k, cs) && (k < n ==> s[k] !in cs)
    decreases n - i
  {
    if i < k && s[i] in cs {
      SkipIs(s, i + 1, n, cs, k);
      assert AllIn(s, i, k, cs) <==> AllIn(s, i + 1, k, cs);
    }
  }

  lemma Found(s: seq<char>, i: nat, n: nat, cs: set<char>)
    requires i <= n <= |s|
    ensures var k := Find(s, i, n, cs); NoneIn(s, i, k, cs) && (k < n ==> s[k] in cs)
  {
    FindIs(s, i, n, cs, Find(s, i, n, cs));
  }

  lemma Skipped(s: seq<char>, i: nat, n: nat, cs: set<char>)
    requires i <= n <= |s|
    ensures var k := Skip(s, i, n, cs); AllIn(s, i, k, cs) && (k < n ==> s[k] !in cs)
  {
    SkipIs(s, i, n, cs, Skip(s, i, n, cs));
  }

  /** Scans look at their range only. */
  lemma ScanSame(s: seq<char>, t: seq<char>, i: nat, n: nat, cs: set<char>)
    requires i <= n <= |s| && n <= |t| && Agree(s, t, i, n)
    ensures Find(s, i, n, cs) == Find(t, i, n, cs)
    ensures Skip(s, i, n, cs) == Skip(t, i, n, cs)
  {
    Found(s, i, n, cs);
    Skipped(s, i, n, cs);
    FindIs(t, i, n, cs, Find(s, i, n, cs));
    SkipIs(t, i, n, cs, Skip(s, i, n, cs));
  }

  /** The text from `i` starts with the lower-case `lit` up to ASCII case and does so before `n`. */
  predicate PrefixAt(s: seq<char>, i: nat, n: nat, lit: seq<char>)
    requires i <= n <= |s|
  {
    i + |lit| <= n && forall j :: 0 <= j < |lit| ==> LowerChar(s[i + j]) == lit[j]
  }

  /** The whole range is `lit` up to ASCII case, as strcasecmp compares in the C locale. */
  predicate TextAt(s: seq<char>, i: nat, n: nat, lit: seq<char>)
    requires i <= n <= |s|
  {
    n == i + |lit| && PrefixAt(s, i, n, lit)
  }

  // ------------------------------------------------------------------
  // The request line
  // ------------------------------------------------------------------

  /** Where the path starts inside the request target at `[u, v)`, if the target has one. */
  function PathStart(s: seq<char>, u: nat, v: nat): (p: Pointer)
    requires u <= v <= |s|
    ensures p.At? ==> u <= p.pos < v
  {
    if PrefixAt(s, u, v, "http://") then
      var k := Find(s, u + 7, v, {'/'});
      if k == v then Null else At(k)
    else if u < v && s[u] == '/' then At(u)
    else Null
  }

  /**
   What the tokeniser does to a C string: the one or two positions it overwrites with
   NUL, in order, and the start of the path if it accepts the line.
   */
  datatype Tokens = Tokens(cut1: Pointer, cut2: Pointer, path: Pointer) {
    predicate Inside(i: nat, n: nat) {
      (cut1.At? ==> i <= cut1.pos < n) && (cut2.At? ==> i <= cut2.pos < n)
    }

    /** The bytes after tokenising. */
    function Apply(s: seq<char>): (r: seq<char>)
      requires Inside(0, |s|)
      ensures |r| == |s|
    {
      var s1 := if cut1.At? then s[cut1.pos := NUL] else s;
      if cut2.At? then s1[cut2.pos := NUL] else s1
    }
  }

  /** Tokenising the C string that fills `[i, n)`. */
  function Tokenize(s: seq<char>, i: nat, n: nat): (t: Tokens)
    requires i <= n <= |s|
    ensures t.Inside(i, n)
    ensures t.path.At? ==> t.cut1.At? && t.cut2.At? && t.cut1.pos < t.path.pos < t.cut2.pos
  {
    var b := Find(s, i, n, BLANKS);
    if b == n then Tokens(Null, Null, Null)
    else if !TextAt(s, i, b, "get") then Tokens(At(b), Null, Null)
    else TokenizeTarget(s, b, n)
  }

  /** The part of the tokeniser that follows the method, which ends at the blank at `b`. */
  function TokenizeTarget(s: seq<char>, b: nat, n: nat): (t: Tokens)
    requires b < n <= |s|
    ensures t.Inside(b, n) && t.cut1 == At(b)
    ensures t.path.At? ==> t.cut2.At? && b < t.path.pos < t.cut2.pos
  {
    var u := Skip(s, b + 1, n, BLANKS);
    var v := Find(s, u, n, BLANKS);
    if v == n then Tokens(At(b), Null, Null) else Tokens(At(b), At(v), AcceptedPath(s, u, v, n))
  }

  /** The path of the target at `[u, v)`, provided that the right version follows the target. */
  function AcceptedPath(s: seq<char>, u: nat, v: nat, n: nat): (p: Pointer)
    requires u <= v < n <= |s|
    ensures p.At? ==> u <= p.pos < v
  {
    if TextAt(s, Skip(s, v + 1, n, BLANKS), n, "http/1.1") then PathStart(s, u, v) else Null
  }

  /** The text that C functions see at `i` when its line ends at `end` stops at the first NUL. */
  function StringEnd(s: seq<char>, i: nat, end: nat): (n: nat)
    requires i <= end <= |s|
    ensures i <= n <= end
  {
    Find(s, i, end, {NUL})
  }

  function LineTokens(s: seq<char>, i: nat, end: nat): (t: Tokens)
    requires i <= end <= |s|
    ensures t.Inside(i, end)
  {
    Tokenize(s, i, StringEnd(s, i, end))
  }

  predicate AcceptedLine(s: seq<char>, i: nat, end: nat)
    requires i <= end <= |s|
  {
    LineTokens(s, i, end).path.At?
  }

  lemma TextSame(s: seq<char>, t: seq<char>, i: nat, n: nat, lit: seq<char>)
    requires i <= n <= |s| && n <= |t| && Agree(s, t, i, n)
    ensures PrefixAt(s, i, n, lit) == PrefixAt(t, i, n, lit)
  {
  }

  lemma PathStartSame(s: seq<char>, t: seq<char>, u: nat, v: nat)
    requires u <= v <= |s| && v <= |t| && Agree(s, t, u, v)
    ensures PathStart(s, u, v) == PathStart(t, u, v)
  {
    TextSame(s, t, u, v, "http://");
    if u + 7 <= v {
      ScanSame(s, t, u + 7, v, {'/'});
    }
  }

  /** The blank between target and version does not matter. */
  lemma AcceptedPathSame(s: seq<char>, t: seq<char>, u: nat, v: nat, n: nat)
    requires u <= v < n <= |s| && n <= |t| && Agree(s, t, u, v) && Agree(s, t, v + 1, n)
    ensures AcceptedPath(s, u, v, n) == AcceptedPath(t, u, v, n)
  {
    PathStartSame(s, t, u, v);
    ScanSame(s, t, v + 1, n, BLANKS);
    TextSame(s, t, Skip(s, v + 1, n, BLANKS), n, "http/1.1");
  }

  lemma TokenizeTargetSame(s: seq<char>, t: seq<char>, b: nat, n: nat)
    requires b < n <= |s| && n <= |t| && Agree(s, t, b, n)
    ensures TokenizeTarget(s, b, n) == TokenizeTarget(t, b, n)
  {
    ScanSame(s, t, b + 1, n, BLANKS);
    var u := Skip(s, b + 1, n, BLANKS);
    ScanSame(s, t, u, n, BLANKS);
    var v := Find(s, u, n, BLANKS);
    if v < n {
      AcceptedPathSame(s, t, u, v, n);
    }
  }

  /** The tokeniser looks at its C string only. */
  lemma TokenizeSame(s: seq<char>, t: seq<char>, i: nat, n: nat)
    requires i <= n <= |s| && n <= |t| && Agree(s, t, i, n)
    ensures Tokenize(s, i, n) == Tokenize(t, i, n)
  {
    ScanSame(s, t, i, n, BLANKS);
    var b := Find(s, i, n, BLANKS);
    TextSame(s, t, i, b, "get");
    if b < n {
      TokenizeTargetSame(s, t, b, n);
    }
  }

  lemma LineTokensSame(s: seq<char>, t: seq<char>, i: nat, end: nat)
    requires i <= end <= |s| && end <= |t| && Agree(s, t, i, end)
    ensures LineTokens(s, i, end) == LineTokens(t, i, end)
  {
    ScanSame(s, t, i, end, {NUL});
    TokenizeSame(s, t, i, StringEnd(s, i, end));
  }

  // A grammar for request lines that mentions no scanning.

  /** The path of the target at `[u, v)` starts at `p`: after `http://` and a host, or at once. */
  ghost predicate TargetPath(s: seq<char>, u: nat, v: nat, p: nat)
    requires u <= v <= |s|
  {
    && p < v && s[p] == '/'
    && if PrefixAt(s, u, v, "http://") then u + 7 <= p && NoneIn(s, u + 7, p, {'/'}) else p == u
  }

  /** GET, blanks, a target, blanks and HTTP/1.1 fill `[i, n)`, with borders at `b`, `u`, `v` and `w`. */
  ghost predicate RequestLineWith(s: seq<char>, i: nat, n: nat, b: nat, u: nat, v: nat, w: nat, p: nat) {
    && i <= b < u <= v < w <= n <= |s|
    && TextAt(s, i, b, "get")
    && AllIn(s, b, u, BLANKS)
    && NoneIn(s, u, v, BLANKS) && TargetPath(s, u, v, p)
    && AllIn(s, v, w, BLANKS)
    && TextAt(s, w, n, "http/1.1")
  }

  ghost predicate IsRequestLine(s: seq<char>, i: nat, n: nat, v: nat, p: nat) {
    exists b: nat, u: nat, w: nat :: RequestLineWith(s, i, n, b, u, v, w, p)
  }

  lemma TextHasNoBlanks(s: seq<char>, i: nat, n: nat, lit: seq<char>)
    requires i <= n <= |s| && TextAt(s, i, n, lit) && NoneIn(lit, 0, |lit|, BLANKS)
    ensures NoneIn(s, i, n, BLANKS)
  {
    forall j | i <= j < n ensures s[j] !in BLANKS {
      assert LowerChar(s[i + (j - i)]) == lit[j - i];
    }
  }

  lemma PathStartExact(s: seq<char>, u: nat, v: nat, p: nat)
    requires u <= v <= |s|
    ensures PathStart(s, u, v) == At(p) <==> TargetPath(s, u, v, p)
  {
    if PrefixAt(s, u, v, "http://") && u + 7 <= p < v {
      FindIs(s, u + 7, v, {'/'}, p);
    }
  }

  lemma AcceptedIsRequestLine(s: seq<char>, i: nat, n: nat)
    requires i <= n <= |s| && Tokenize(s, i, n).path.At?
    ensures var t := Tokenize(s, i, n); IsRequestLine(s, i, n, t.cut2.pos, t.path.pos)
  {
    var b := Find(s, i, n, BLANKS);
    var u := Skip(s, b + 1, n, BLANKS);
    var v := Find(s, u, n, BLANKS);
    var w := Skip(s, v + 1, n, BLANKS);
    var p := Tokenize(s, i, n).path.pos;
    assert b < n && TextAt(s, i, b, "get") && v < n && Tokenize(s, i, n).cut2 == At(v);
    assert TextAt(s, w, n, "http/1.1") && PathStart(s, u, v) == At(p);
    hide Tokenize, Find, Skip, PathStart, TextAt, TargetPath;
    Found(s, i, n, BLANKS);
    Skipped(s, b + 1, n, BLANKS);
    Found(s, u, n, BLANKS);
    Skipped(s, v + 1, n, BLANKS);
    PathStartExact(s, u, v, p);
    assert RequestLineWith(s, i, n, b, u, v, w, p);
  }

  lemma RequestLineIsAccepted(s: seq<char>, i: nat, n: nat, b: nat, u: nat, v: nat, w: nat, p: nat)
    requires RequestLineWith(s, i, n, b, u, v, w, p)
    ensures Tokenize(s, i, n) == Tokens(At(b), At(v), At(p))
  {
    TextHasNoBlanks(s, i, b, "get");
    TextHasNoBlanks(s, w, n, "http/1.1");
    FindIs(s, i, n, BLANKS, b);
    SkipIs(s, b + 1, n, BLANKS, u);
    FindIs(s, u, n, BLANKS, v);
    SkipIs(s, v + 1, n, BLANKS, w);
    PathStartExact(s, u, v, p);
  }

  /**
   The tokeniser accepts exactly the grammar: GET in any case, blanks, a target
   with a path, blanks, HTTP/1.1 in any case. The path it reports is the target's
   path, which it has terminated with a NUL at the end of the target.
   */
  lemma TokenizeExact(s: seq<char>, i: nat, n: nat, v: nat, p: nat)
    requires i <= n <= |s|
    ensures IsRequestLine(s, i, n, v, p)
       <==> Tokenize(s, i, n).path == At(p) && Tokenize(s, i, n).cut2 == At(v)
  {
    if b: nat, u: nat, w: nat :| RequestLineWith(s, i, n, b, u, v, w, p) {
      RequestLineIsAccepted(s, i, n, b, u, v, w, p);
    } else if Tokenize(s, i, n).path == At(p) {
      AcceptedIsRequestLine(s, i, n);
    }
  }

  /** The canonical text of a request for `path`, absolute (with a host) or not. */
  function Print(host: Option<seq<char>>, path: seq<char>): seq<char> {
    "GET " + Target(host, path) + " HTTP/1.1"
  }

  function Target(host: Option<seq<char>>, path: seq<char>): seq<char> {
    if host.Some? then "http://" + host.value + path else path
  }

  lemma PrintedTarget(host: Option<seq<char>>, path: seq<char>)
    requires |path| > 0 && path[0] == '/' && NoneIn(path, 0, |path|, BLANKS)
    requires host.Some? ==> NoneIn(host.value, 0, |host.value|, BLANKS + {'/'})
    ensures var t := Target(host, path);
            NoneIn(t, 0, |t|, BLANKS) && TargetPath(t, 0, |t|, |t| - |path|)
  {
    var t := Target(host, path);
    if host.Some? {
      assert t[..7] == "http://";
      forall j | 7 <= j < |t| - |path| ensures t[j] !in BLANKS + {'/'} { assert t[j] == host.value[j - 7]; }
      forall j | |t| - |path| <= j < |t| ensures t[j] !in BLANKS { assert t[j] == path[j - (|t| - |path|)]; }
    } else {
      assert LowerChar(t[0]) != "http://"[0];
    }
  }

  /** The line around a target, character by character. */
  lemma PrintedLine(t: seq<char>, s: seq<char>)
    requires s == "GET " + t + " HTTP/1.1" && NoneIn(t, 0, |t|, BLANKS)
    ensures |s| == |t| + 13 && NoneIn(s, 4, 4 + |t|, BLANKS)
    ensures forall j :: 0 <= j < |t| ==> s[4 + j] == t[j]
    ensures TextAt(s, 0, 3, "get") && AllIn(s, 3, 4, BLANKS)
    ensures AllIn(s, 4 + |t|, 5 + |t|, BLANKS) && TextAt(s, 5 + |t|, |s|, "http/1.1")
  {
    assert s[..4] == "GET ";
    forall j | 4 <= j < 4 + |t| ensures s[j] !in BLANKS { assert s[j] == t[j - 4]; }
    forall j | 0 <= j < 9 ensures s[4 + |t| + j] == " HTTP/1.1"[j] {}
    assert TextAt(" HTTP/1.1", 1, 9, "http/1.1");
    forall j | 0 <= j < 8 ensures LowerChar(s[5 + |t| + j]) == "http/1.1"[j] {
      assert s[4 + |t| + (1 + j)] == " HTTP/1.1"[1 + j];
    }
  }

  lemma TargetPathMoves(t: seq<char>, s: seq<char>, k: nat, p: nat)
    requires k + |t| <= |s| && (forall j :: 0 <= j < |t| ==> s[k + j] == t[j]) && TargetPath(t, 0, |t|, p)
    ensures TargetPath(s, k, k + |t|, k + p)
  {
    forall j | k <= j < k + |t| ensures s[j] == t[j - k] { assert s[k + (j - k)] == t[j - k]; }
    assert PrefixAt(s, k, k + |t|, "http://") == PrefixAt(t, 0, |t|, "http://");
  }

  lemma PrintedPath(host: Option<seq<char>>, path: seq<char>, s: seq<char>)
    requires var t := Target(host, path);
             |s| >= 4 + |t| && forall j :: 0 <= j < |t| ==> s[4 + j] == t[j]
    ensures s[4 + |Target(host, path)| - |path|..4 + |Target(host, path)|] == path
  {
    var t := Target(host, path);
    forall j | 0 <= j < |path| ensures s[4 + |t| - |path| + j] == path[j] {
      assert s[4 + (|t| - |path| + j)] == t[|t| - |path| + j];
    }
  }

  lemma PrintedIsRequestLine(t: seq<char>, s: seq<char>, p: nat)
    requires s == "GET " + t + " HTTP/1.1" && NoneIn(t, 0, |t|, BLANKS) && TargetPath(t, 0, |t|, p)
    ensures RequestLineWith(s, 0, |s|, 3, 4, 4 + |t|, 5 + |t|, 4 + p)
  {
    PrintedLine(t, s);
    TargetPathMoves(t, s, 4, p);
  }

  /** Every canonically printed request line is accepted and its path recovered. */
  lemma PrintedIsAccepted(host: Option<seq<char>>, path: seq<char>, s: seq<char>)
    requires |path| > 0 && path[0] == '/' && NoneIn(path, 0, |path|, BLANKS)
    requires host.Some? ==> NoneIn(host.value, 0, |host.value|, BLANKS + {'/'})
    requires s == Print(host, path)
    ensures var t := Tokenize(s, 0, |s|); t.path.At? && s[t.path.pos..t.cut2.pos] == path
  {
    var t := Target(host, path);
    PrintedTarget(host, path);
    PrintedLine(t, s);
    PrintedIsRequestLine(t, s, |t| - |path|);
    RequestLineIsAccepted(s, 0, |s|, 3, 4, 4 + |t|, 5 + |t|, 4 + |t| - |path|);
    PrintedPath(host, path, s);
  }

  // ------------------------------------------------------------------
  // Verdict of a whole stream
  // ------------------------------------------------------------------

  /** Looks for the end of the line that starts at `i`; the index is where scanning stops. */
  function ScanLine(s: seq<char>, i: nat): (r: (LineStatus, nat))
    requires i <= |s|
    ensures i <= r.1 <= |s|
    ensures r.0.LineOk? ==> r.1 >= i + 2
  {
    var k := Find(s, i, |s|, BREAKS);
    if k == |s| then (LineOpen, k)
    else if s[k] == '\n' then (LineBad, k)
    else if k + 1 == |s| then (LineOpen, k)
    else if s[k + 1] == '\n' then (LineOk, k + 2)
    else (LineBad, k)
  }

  /** `s` with the two bytes before `k` replaced by NULs. */
  function CutLine(s: seq<char>, k: nat): (r: seq<char>)
    requires 2 <= k <= |s|
    ensures |r| == |s|
  {
    s[k - 2 := NUL][k - 1 := NUL]
  }

  /** Everything a caller can see after the parser has digested a stream. */
  datatype Outcome = Outcome(code: HttpCode, status: CheckStatus, start: nat, checked: nat, bytes: seq<char>)

  /** The buffer once the first line, which ends just before `k`, has been tokenised. */
  function AfterFirstLine(s: seq<char>, k: nat): (bytes: seq<char>)
    requires 2 <= k <= |s|
    ensures |bytes| == |s|
  {
    LineTokens(s, 0, k - 2).Apply(CutLine(s, k))
  }

  lemma ApplyToPrefix(t: Tokens, a: seq<char>, r: nat)
    requires r <= |a| && t.Inside(0, r)
    ensures t.Apply(a)[..r] == t.Apply(a[..r]) && t.Apply(a)[r..] == a[r..]
  {
  }

  /** The outcome that the parser must reach on the stream `s`, however `s` was delivered. */
  function OutcomeOf(s: seq<char>): (o: Outcome)
    ensures |o.bytes| == |s| && o.start <= |s| && o.checked <= |s|
    ensures o.code.NoRequest? ==> o.start <= o.checked
  {
    match ScanLine(s, 0)
    case (LineOpen, k) => Outcome(NoRequest, RequestLine, 0, k, s)
    case (LineBad, k) => Outcome(BadRequest, RequestLine, 0, k, s)
    case (LineOk, k) =>
      if AcceptedLine(s, 0, k - 2) then SecondLineOutcome(s, k)
      else Outcome(BadRequest, RequestLine, k, k, AfterFirstLine(s, k))
  }

  /** The outcome when the first line has been accepted and the second one starts at `k`. */
  function SecondLineOutcome(s: seq<char>, k: nat): (o: Outcome)
    requires 2 <= k <= |s|
    ensures |o.bytes| == |s| && o.start <= |s| && o.checked <= |s| && o.status == Header
    ensures o.code.NoRequest? ==> o.start <= o.checked
  {
    var bytes := AfterFirstLine(s, k);
    match ScanLine(s, k)
    case (LineOpen, j) => Outcome(NoRequest, Header, k, j, bytes)
    case (LineBad, j) => Outcome(BadRequest, Header, k, j, bytes)
    case (LineOk, j) => Outcome(GetRequest, Header, j, j, CutLine(bytes, j))
  }

  /** A finished scan of a line is not affected by bytes that arrive later. */
  lemma ScanLineExtends(s: seq<char>, q: seq<char>, i: nat)
    requires i <= |s| && !ScanLine(s, i).0.LineOpen?
    ensures ScanLine(s + q, i) == ScanLine(s, i)
  {
    Found(s, i, |s|, BREAKS);
    FindIs(s + q, i, |s + q|, BREAKS, Find(s, i, |s|, BREAKS));
  }

  /** An open scan resumes where it stopped, and gives what a scan from the line start would give. */
  lemma ScanLineResumes(s: seq<char>, q: seq<char>, i: nat)
    requires i <= |s| && ScanLine(s, i).0.LineOpen?
    ensures ScanLine(s + q, ScanLine(s, i).1) == ScanLine(s + q, i)
  {
    var k := ScanLine(s, i).1;
    Found(s, i, |s|, BREAKS);
    Found(s + q, k, |s + q|, BREAKS);
    FindIs(s + q, i, |s + q|, BREAKS, Find(s + q, k, |s + q|, BREAKS));
  }

  lemma AfterFirstLineExtends(s: seq<char>, q: seq<char>, k: nat)
    requires 2 <= k <= |s|
    ensures LineTokens(s + q, 0, k - 2) == LineTokens(s, 0, k - 2)
    ensures AfterFirstLine(s + q, k) == AfterFirstLine(s, k) + q
  {
    LineTokensSame(s, s + q, 0, k - 2);
    assert CutLine(s + q, k) == CutLine(s, k) + q;
  }

  lemma SecondLineExtends(s: seq<char>, q: seq<char>, k: nat)
    requires 2 <= k <= |s| && !SecondLineOutcome(s, k).code.NoRequest?
    ensures SecondLineOutcome(s + q, k) == SecondLineOutcome(s, k).(bytes := SecondLineOutcome(s, k).bytes + q)
  {
    AfterFirstLineExtends(s, q, k);
    ScanLineExtends(s, q, k);
    var j, b := ScanLine(s, k).1, AfterFirstLine(s, k);
    if ScanLine(s, k).0.LineOk? {
      assert CutLine(b + q, j) == CutLine(b, j) + q;
    }
  }

  /** Once a verdict is reached, more input changes neither it nor the bytes already digested. */
  lemma VerdictIsFinal(s: seq<char>, q: seq<char>)
    requires !OutcomeOf(s).code.NoRequest?
    ensures OutcomeOf(s + q) == OutcomeOf(s).(bytes := OutcomeOf(s).bytes + q)
  {
    hide ScanLine, SecondLineOutcome, AfterFirstLine;
    ScanLineExtends(s, q, 0);
    var (st, k) := ScanLine(s, 0);
    if st.LineOk? {
      AfterFirstLineExtends(s, q, k);
      assert AcceptedLine(s + q, 0, k - 2) == AcceptedLine(s, 0, k - 2);
      hide AcceptedLine;
      if AcceptedLine(s, 0, k - 2) {
        SecondLineExtends(s, q, k);
      }
    }
  }

  /** The first line's bytes aside, the buffer still holds the stream. */
  lemma AfterFirstLineKeeps(s: seq<char>, k: nat)
    requires 2 <= k <= |s|
    ensures Agree(s, AfterFirstLine(s, k), k, |s|) && AfterFirstLine(s, k)[k - 1] == NUL
  {
  }

  lemma ScanLineSame(s: seq<char>, t: seq<char>, i: nat)
    requires i <= |s| == |t| && Agree(s, t, i, |s|)
    ensures ScanLine(s, i) == ScanLine(t, i)
  {
    ScanSame(s, t, i, |s|, BREAKS);
  }

  /** `b` is a buffer in which scanning from `i` gives what scanning the stream from `l` gives. */
  ghost predicate Resumable(s: seq<char>, b: seq<char>, l: nat, i: nat) {
    && l <= i <= |s| == |b|
    && ScanLine(b, i) == ScanLine(s, l)
    && (i > 0 ==> b[i - 1] != '\r')
  }

  lemma ResumeInFirstLine(p: seq<char>, c: seq<char>)
    requires ScanLine(p, 0).0.LineOpen?
    ensures Resumable(p + c, p + c, 0, ScanLine(p, 0).1)
  {
    ScanLineResumes(p, c, 0);
    Found(p, 0, |p|, BREAKS);
  }

  lemma ResumeInSecondLine(p: seq<char>, c: seq<char>, k: nat)
    requires 2 <= k <= |p| && ScanLine(p, k).0.LineOpen?
    ensures AfterFirstLine(p, k) + c == AfterFirstLine(p + c, k)
    ensures Resumable(p + c, AfterFirstLine(p + c, k), k, ScanLine(p, k).1)
  {
    var j := ScanLine(p, k).1;
    AfterFirstLineExtends(p, c, k);
    AfterFirstLineKeeps(p + c, k);
    ScanLineResumes(p, c, k);
    ScanLineSame(p + c, AfterFirstLine(p + c, k), j);
    Found(p, k, |p|, BREAKS);
    if k < j { assert (p + c)[j - 1] == p[j - 1]; }
  }

  // The stages of a run, as relations between the stream and what a caller can see.

  /** The first line of `s` has been looked for, with the result `ls`. */
  ghost predicate InFirstLine(s: seq<char>, o: Outcome, ls: LineStatus) {
    && o.status == RequestLine && o.start == 0
    && (ls, o.checked) == ScanLine(s, 0)
    && o.bytes == if ls.LineOk? then CutLine(s, o.checked) else s
  }

  /** The first line, which ends before `k`, has been accepted. */
  ghost predicate FirstAccepted(s: seq<char>, k: nat) {
    ScanLine(s, 0) == (LineOk, k) && AcceptedLine(s, 0, k - 2)
  }

  /** The second line has been looked for, with the result `ls`. */
  ghost predicate InSecondLine(s: seq<char>, o: Outcome, ls: LineStatus) {
    && o.status == Header && FirstAccepted(s, o.start)
    && (ls, o.checked) == ScanLine(s, o.start)
    && o.bytes == if ls.LineOk? then CutLine(AfterFirstLine(s, o.start), o.checked) else AfterFirstLine(s, o.start)
  }

  /** Ready to look for the end of the current line. */
  ghost predicate Ready(s: seq<char>, o: Outcome) {
    && Resumable(s, o.bytes, o.start, o.checked)
    && match o.status
       case RequestLine => o.start == 0 && o.bytes == s
       case Header => FirstAccepted(s, o.start) && o.bytes == AfterFirstLine(s, o.start)
  }

  ghost predicate FirstRefused(s: seq<char>, o: Outcome) {
    && o.status == RequestLine && ScanLine(s, 0) == (LineOk, o.start) && !AcceptedLine(s, 0, o.start - 2)
    && o.checked == o.start && o.bytes == AfterFirstLine(s, o.start)
  }

  ghost predicate BothRead(s: seq<char>, o: Outcome) {
    var k := ScanLine(s, 0).1;
    && o.status == Header && FirstAccepted(s, k)
    && ScanLine(s, k) == (LineOk, o.checked) && o.start == o.checked
    && o.bytes == CutLine(AfterFirstLine(s, k), o.checked)
  }

  /** The parser has stopped, with the verdict `o.code`. */
  ghost predicate Stopped(s: seq<char>, o: Outcome) {
    match o.code
    case NoRequest => InLine(s, o, LineOpen)
    case GetRequest => BothRead(s, o)
    case BadRequest => InLine(s, o, LineBad) || FirstRefused(s, o)
    case _ => false
  }

  /** There is one way to have stopped on a stream. */
  lemma StoppedIsOutcome(s: seq<char>, o: Outcome)
    requires Stopped(s, o)
    ensures o == OutcomeOf(s)
  {
    hide ScanLine, CutLine, AfterFirstLine, AcceptedLine;
  }

  /** Whatever was scanned before the bytes `c` arrived need not be scanned again. */
  lemma PendingIsReady(p: seq<char>, c: seq<char>)
    requires OutcomeOf(p).code.NoRequest?
    ensures Ready(p + c, OutcomeOf(p).(bytes := OutcomeOf(p).bytes + c))
  {
    if ScanLine(p, 0).0.LineOpen? {
      ResumeInFirstLine(p, c);
    } else {
      ScanLineExtends(p, c, 0);
      AfterFirstLineExtends(p, c, ScanLine(p, 0).1);
      ResumeInSecondLine(p, c, ScanLine(p, 0).1);
    }
  }

  /** Tokenising the first line of a longer buffer that begins with the cut stream. */
  lemma FirstLineInBuffer(a: seq<char>, s: seq<char>, k: nat)
    requires 2 <= k <= |s| <= |a| && a[..|s|] == CutLine(s, k)
    ensures a[k - 2] == NUL
    ensures var t := LineTokens(a, 0, k - 2);
            && (t.path.At? <==> AcceptedLine(s, 0, k - 2))
            && t.Apply(a)[..|s|] == AfterFirstLine(s, k) && t.Apply(a)[|s|..] == a[|s|..]
  {
    forall j | 0 <= j < k - 2 ensures a[j] == s[j] { assert a[j] == a[..|s|][j]; }
    assert a[k - 2] == a[..|s|][k - 2];
    LineTokensSame(a, s, 0, k - 2);
    ApplyToPrefix(LineTokens(a, 0, k - 2), a, |s|);
  }

  /** The line that was looked for is the first or the second. */
  ghost predicate InLine(s: seq<char>, o: Outcome, ls: LineStatus) {
    if o.status.RequestLine? then InFirstLine(s, o, ls) else InSecondLine(s, o, ls)
  }

  lemma LineFound(s: seq<char>, o: Outcome, ls: LineStatus, checked: nat, bytes: seq<char>)
    requires Ready(s, o) && (ls, checked) == ScanLine(s, o.start)
    requires bytes == if ls.LineOk? then CutLine(o.bytes, checked) else o.bytes
    ensures InLine(s, o.(checked := checked, bytes := bytes), ls)
  {
  }

  lemma LineNotOk(s: seq<char>, o: Outcome, ls: LineStatus)
    requires InLine(s, o, ls) && !ls.LineOk?
    ensures Stopped(s, o.(code := if ls.LineOpen? then NoRequest else BadRequest))
  {
  }

  lemma FirstLineStart(s: seq<char>, o: Outcome)
    requires InLine(s, o, LineOk) && o.status.RequestLine?
    ensures o.start == 0
  {
  }

  lemma SecondLineOk(s: seq<char>, o: Outcome)
    requires InLine(s, o, LineOk) && o.status.Header?
    ensures Stopped(s, o.(code := GetRequest, start := o.checked))
  {
  }

  /** Tokenising a complete first line decides it or makes the second line the next. */
  lemma FirstLineOk(s: seq<char>, o: Outcome, a: seq<char>)
    requires InLine(s, o, LineOk) && o.status.RequestLine? && |s| <= |a| && a[..|s|] == o.bytes
    ensures 2 <= o.checked <= |a| && a[o.checked - 2] == NUL
    ensures var t := LineTokens(a, 0, o.checked - 2);
            var o' := o.(start := o.checked, bytes := t.Apply(a)[..|s|]);
            && t.Apply(a)[|s|..] == a[|s|..]
            && (t.path.At? ==> Ready(s, o'.(status := Header)))
            && (t.path.Null? ==> Stopped(s, o'.(code := BadRequest)))
  {
    hide ScanLine, LineTokens, CutLine;
    FirstLineInBuffer(a, s, o.checked);
    if AcceptedLine(s, 0, o.checked - 2) {
      ReadyForSecondLine(s, o.(start := o.checked, status := Header, bytes := AfterFirstLine(s, o.checked)));
    }
  }

  lemma ReadyForSecondLine(s: seq<char>, o: Outcome)
    requires FirstAccepted(s, o.start) && o.status == Header && o.checked == o.start
    requires o.bytes == AfterFirstLine(s, o.start)
    ensures Ready(s, o)
  {
    AfterFirstLineKeeps(s, o.start);
    ScanLineSame(s, o.bytes, o.start);
  }

  // The verdicts in terms of lines, without scanning.

  /** The line that starts at `i` is ended by the CRLF at `k`. */
  ghost predicate LineEnds(s: seq<char>, i: nat, k: nat) {
    i <= k && k + 1 < |s| && NoneIn(s, i, k, BREAKS) && s[k] == '\r' && s[k + 1] == '\n'
  }

  /** In the line that starts at `i`, the first line break is the refused one at `k`: a lone LF, or a CR before something else. */
  ghost predicate BrokenAt(s: seq<char>, i: nat, k: nat) {
    && i <= k < |s| && NoneIn(s, i, k, BREAKS)
    && (s[k] == '\n' || (s[k] == '\r' && k + 1 < |s| && s[k + 1] != '\n'))
  }

  /** The line that starts at `i` has no break yet before `k`, where the stream ends, or is about to with a CR. */
  ghost predicate OpenAt(s: seq<char>, i: nat, k: nat) {
    && i <= k <= |s| && NoneIn(s, i, k, BREAKS)
    && (k == |s| || (k + 1 == |s| && s[k] == '\r'))
  }

  /** The line that starts at `i` runs into a refused line break. */
  ghost predicate BadBreak(s: seq<char>, i: nat) {
    exists k: nat :: BrokenAt(s, i, k)
  }

  ghost predicate HasLine(s: seq<char>, i: nat) {
    exists k: nat :: LineEnds(s, i, k)
  }

  /** The first two lines are complete and the first is an accepted request line. */
  ghost predicate HasRequest(s: seq<char>) {
    exists k: nat :: LineEnds(s, 0, k) && AcceptedLine(s, 0, k) && HasLine(s, k + 2)
  }

  /** A refused line break in the first two lines, or a refused first line. */
  ghost predicate HasFault(s: seq<char>) {
    BadBreak(s, 0) || exists k: nat :: LineEnds(s, 0, k) && (!AcceptedLine(s, 0, k) || BadBreak(s, k + 2))
  }

  lemma LineScanned(s: seq<char>, i: nat, k: nat)
    requires i <= |s|
    ensures LineEnds(s, i, k) <==> ScanLine(s, i) == (LineOk, k + 2)
  {
    Found(s, i, |s|, BREAKS);
    if i <= k < |s| { FindIs(s, i, |s|, BREAKS, k); }
  }

  lemma BrokenScanned(s: seq<char>, i: nat, k: nat)
    requires i <= |s|
    ensures BrokenAt(s, i, k) <==> ScanLine(s, i) == (LineBad, k)
  {
    Found(s, i, |s|, BREAKS);
    if i <= k < |s| { FindIs(s, i, |s|, BREAKS, k); }
  }

  lemma OpenScanned(s: seq<char>, i: nat, k: nat)
    requires i <= |s|
    ensures OpenAt(s, i, k) <==> ScanLine(s, i) == (LineOpen, k)
  {
    Found(s, i, |s|, BREAKS);
    if i <= k <= |s| { FindIs(s, i, |s|, BREAKS, k); }
  }

  lemma BadBreakScanned(s: seq<char>, i: nat)
    requires i <= |s|
    ensures BadBreak(s, i) <==> ScanLine(s, i).0.LineBad?
  {
    if k: nat :| BrokenAt(s, i, k) {
      BrokenScanned(s, i, k);
    } else if ScanLine(s, i).0.LineBad? {
      BrokenScanned(s, i, ScanLine(s, i).1);
    }
  }

  lemma LineScannedSomewhere(s: seq<char>, i: nat)
    requires i <= |s|
    ensures HasLine(s, i) <==> ScanLine(s, i).0.LineOk?
  {
    if k: nat :| LineEnds(s, i, k) {
      LineScanned(s, i, k);
    } else if ScanLine(s, i).0.LineOk? {
      LineScanned(s, i, ScanLine(s, i).1 - 2);
    }
  }

  lemma FirstLineIs(s: seq<char>, k: nat)
    requires LineEnds(s, 0, k)
    ensures OutcomeOf(s).code.GetRequest? <==> AcceptedLine(s, 0, k) && HasLine(s, k + 2)
    ensures OutcomeOf(s).code.BadRequest? <==> !AcceptedLine(s, 0, k) || BadBreak(s, k + 2)
  {
    hide ScanLine, HasLine, BadBreak, AcceptedLine, AfterFirstLine;
    LineScanned(s, 0, k);
    LineScannedSomewhere(s, k + 2);
    BadBreakScanned(s, k + 2);
  }

  /** GET_REQUEST means exactly: an accepted first line and a complete second line. */
  lemma GetExact(s: seq<char>)
    ensures OutcomeOf(s).code.GetRequest? <==> HasRequest(s)
  {
    LineScannedSomewhere(s, 0);
    if k: nat :| LineEnds(s, 0, k) && AcceptedLine(s, 0, k) && HasLine(s, k + 2) {
      FirstLineIs(s, k);
    } else if k: nat :| LineEnds(s, 0, k) {
      FirstLineIs(s, k);
    }
  }

  /** BAD_REQUEST means exactly: a refused line break in the first two lines, or a refused first line. */
  lemma BadExact(s: seq<char>)
    ensures OutcomeOf(s).code.BadRequest? <==> HasFault(s)
  {
    LineScannedSomewhere(s, 0);
    BadBreakScanned(s, 0);
    if k: nat :| LineEnds(s, 0, k) && (!AcceptedLine(s, 0, k) || BadBreak(s, k + 2)) {
      FirstLineIs(s, k);
    } else if k: nat :| LineEnds(s, 0, k) {
      FirstLineIs(s, k);
    }
  }

  /** The verdict in full; NO_REQUEST is all the rest, and no other code is ever returned. */
  lemma VerdictExact(s: seq<char>)
    ensures !(HasRequest(s) && HasFault(s))
    ensures OutcomeOf(s).code == if HasRequest(s) then GetRequest else if HasFault(s) then BadRequest else NoRequest
  {
    GetExact(s);
    BadExact(s);
  }

  // ------------------------------------------------------------------
  // The indices and the bytes, without scanning
  // ------------------------------------------------------------------

  /** Where the current line starts: at 0, or behind the accepted first line. */
  ghost predicate LineStart(s: seq<char>, status: CheckStatus, start: nat) {
    match status
    case RequestLine => start == 0
    case Header => start >= 2 && LineEnds(s, 0, start - 2) && AcceptedLine(s, 0, start - 2)
  }

  /** The first line is complete and refused; both indices are behind it. */
  ghost predicate RefusedLine(s: seq<char>, o: Outcome) {
    && o.status == RequestLine && o.start == o.checked >= 2
    && LineEnds(s, 0, o.start - 2) && !AcceptedLine(s, 0, o.start - 2)
  }

  /** Both indices are behind the second line, and the first one is accepted. */
  ghost predicate TwoLines(s: seq<char>, o: Outcome) {
    && o.status == Header && o.start == o.checked
    && exists k: nat :: LineEnds(s, 0, k) && AcceptedLine(s, 0, k)
                        && k + 4 <= o.checked && LineEnds(s, k + 2, o.checked - 2)
  }

  /**
   Status and indices on every stream. While undecided, everything before `checked` in the
   current line has been seen and holds no break, and `checked` is at the end, or at a final
   CR. A refused break is where `checked` is. Otherwise both indices are behind the last line.
   */
  lemma StateExact(s: seq<char>)
    ensures var o := OutcomeOf(s);
            match o.code
            case NoRequest => LineStart(s, o.status, o.start) && OpenAt(s, o.start, o.checked)
            case GetRequest => TwoLines(s, o)
            case BadRequest => (LineStart(s, o.status, o.start) && BrokenAt(s, o.start, o.checked)) || RefusedLine(s, o)
            case _ => false
  {
    hide ScanLine, AcceptedLine, AfterFirstLine, LineEnds, OpenAt, BrokenAt;
    var k := ScanLine(s, 0).1;
    OpenScanned(s, 0, k);
    BrokenScanned(s, 0, k);
    if ScanLine(s, 0).0.LineOk? {
      LineScanned(s, 0, k - 2);
      var j := ScanLine(s, k).1;
      OpenScanned(s, k, j);
      BrokenScanned(s, k, j);
      if ScanLine(s, k).0.LineOk? { LineScanned(s, k, j - 2); }
    }
  }

  /** The C string at `i` in a line that ends at `end` ends at `n`: at its first NUL, if there is one. */
  ghost predicate StringEnds(s: seq<char>, i: nat, end: nat, n: nat) {
    i <= n <= end <= |s| && NoneIn(s, i, n, {NUL}) && (n < end ==> s[n] == NUL)
  }

  /** The blank that ends the method. */
  ghost predicate FirstBlank(s: seq<char>, i: nat, n: nat, b: nat) {
    i <= b < n <= |s| && NoneIn(s, i, b, BLANKS) && s[b] in BLANKS
  }

  /** The blank that ends the target, in a string whose method is GET. */
  ghost predicate TargetBlank(s: seq<char>, i: nat, n: nat, v: nat) {
    exists b: nat, u: nat ::
      && FirstBlank(s, i, n, b) && TextAt(s, i, b, "get")
      && b < u < v < n && AllIn(s, b, u, BLANKS) && NoneIn(s, u, v, BLANKS) && s[v] in BLANKS
  }

  /** The bytes that the tokeniser overwrites: the first blank, and after a GET that behind the target. */
  lemma CutsExact(s: seq<char>, i: nat, n: nat, j: nat)
    requires i <= n <= |s|
    ensures Tokenize(s, i, n).cut1 == At(j) <==> FirstBlank(s, i, n, j)
    ensures Tokenize(s, i, n).cut2 == At(j) <==> TargetBlank(s, i, n, j)
  {
    FirstCut(s, i, n, j);
    if TargetBlank(s, i, n, j) {
      SecondCutIs(s, i, n, j);
    }
    if Tokenize(s, i, n).cut2 == At(j) {
      IsSecondCut(s, i, n, j);
    }
  }

  lemma FirstCut(s: seq<char>, i: nat, n: nat, j: nat)
    requires i <= n <= |s|
    ensures Tokenize(s, i, n).cut1 == At(j) <==> FirstBlank(s, i, n, j)
  {
    Found(s, i, n, BLANKS);
    if i <= j < n { FindIs(s, i, n, BLANKS, j); }
  }

  lemma SecondCutIs(s: seq<char>, i: nat, n: nat, v: nat)
    requires i <= n <= |s| && TargetBlank(s, i, n, v)
    ensures Tokenize(s, i, n).cut2 == At(v)
  {
    var b: nat, u: nat :| FirstBlank(s, i, n, b) && TextAt(s, i, b, "get")
      && b < u < v < n && AllIn(s, b, u, BLANKS) && NoneIn(s, u, v, BLANKS) && s[v] in BLANKS;
    FindIs(s, i, n, BLANKS, b);
    SkipIs(s, b + 1, n, BLANKS, u);
    FindIs(s, u, n, BLANKS, v);
  }

  lemma IsSecondCut(s: seq<char>, i: nat, n: nat, v: nat)
    requires i <= n <= |s| && Tokenize(s, i, n).cut2 == At(v)
    ensures TargetBlank(s, i, n, v)
  {
    var b := Find(s, i, n, BLANKS);
    var u := Skip(s, b + 1, n, BLANKS);
    Found(s, i, n, BLANKS);
    Skipped(s, b + 1, n, BLANKS);
    Found(s, u, n, BLANKS);
    assert FirstBlank(s, i, n, b) && AllIn(s, b, u, BLANKS);
  }

  /** A stream without a complete first line is left as it is. */
  lemma BytesUntouched(s: seq<char>)
    requires !HasLine(s, 0)
    ensures OutcomeOf(s).bytes == s
  {
    LineScannedSomewhere(s, 0);
  }

  /**
   Which bytes are NUL in the end and were not before: those of the CRLF that end the
   first line and, with a verdict of GET_REQUEST, the second; and in the C string of the
   first line the blank behind the method and, after a GET, the one behind the target.
   */
  lemma BytesExact(s: seq<char>, k: nat, n: nat, j: nat)
    requires LineEnds(s, 0, k) && StringEnds(s, 0, k, n) && j < |s|
    ensures var o := OutcomeOf(s);
            var cut := j == k || j == k + 1 || FirstBlank(s, 0, n, j) || TargetBlank(s, 0, n, j)
                       || (o.code.GetRequest? && (j + 2 == o.checked || j + 1 == o.checked));
            o.bytes[j] == if cut then NUL else s[j]
  {
    hide Tokenize, TargetBlank, FirstBlank, AfterFirstLine, ScanLine, AcceptedLine, LineEnds, OutcomeOf;
    LineScanned(s, 0, k);
    FindIs(s, 0, k, {NUL}, n);
    CutsExact(s, 0, n, j);
    FirstLineBytes(s, k, j);
    OutcomeBytes(s, k, j);
  }

  lemma OutcomeBytes(s: seq<char>, k: nat, j: nat)
    requires ScanLine(s, 0) == (LineOk, k + 2) && j < |s|
    ensures var o := OutcomeOf(s);
            o.bytes[j] == if o.code.GetRequest? && (j + 2 == o.checked || j + 1 == o.checked) then NUL
                          else AfterFirstLine(s, k + 2)[j]
  {
    hide AfterFirstLine, AcceptedLine;
  }

  lemma FirstLineBytes(s: seq<char>, k: nat, j: nat)
    requires k + 2 <= |s| && j < |s|
    ensures var t := LineTokens(s, 0, k);
            AfterFirstLine(s, k + 2)[j] == if j == k || j == k + 1 || t.cut1 == At(j) || t.cut2 == At(j) then NUL else s[j]
  {
  }

  /** An accepted line, in the words of the grammar. */
  lemma AcceptedExact(s: seq<char>, i: nat, end: nat, n: nat)
    requires StringEnds(s, i, end, n)
    ensures AcceptedLine(s, i, end) <==> exists v: nat, p: nat :: IsRequestLine(s, i, n, v, p)
  {
    FindIs(s, i, end, {NUL}, n);
    if AcceptedLine(s, i, end) {
      var t := Tokenize(s, i, n);
      TokenizeExact(s, i, n, t.cut2.pos, t.path.pos);
    }
    if v: nat, p: nat :| IsRequestLine(s, i, n, v, p) {
      TokenizeExact(s, i, n, v, p);
    }
  }
}
