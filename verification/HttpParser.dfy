/**
 The incremental request parser of tests/http.cpp over its one mutable buffer.
 The indices that the C++ functions receive by reference are fields here.
 */
module HttpParser {
  import opened Basics
  import opened HttpSpec

  /** The C string at `p` fills `[p, n)` and is ended by the NUL at `n`. */
  ghost predicate StringIn(a: seq<char>, p: nat, n: nat) {
    p <= n < |a| && a[n] == NUL && NoneIn(a, p, n, {NUL})
  }

  /** strpbrk: the first character of `cs` in the C string at `p`, if any. */
  method StrPbrk(a: array<char>, p: nat, cs: set<char>, ghost n: nat) returns (r: Pointer)
    requires StringIn(a[..], p, n) && NUL !in cs
    ensures var k := Find(a[..], p, n, cs); r == if k == n then Null else At(k)
  {
    var i := p;
    while a[i] != NUL && a[i] !in cs
      invariant p <= i <= n && NoneIn(a[..], p, i, cs)
      decreases n - i
    {
      i := i + 1;
    }
    FindIs(a[..], p, n, cs, i);
    r := if a[i] == NUL then Null else At(i);
  }

  /** strspn, returned as a position: the first character of the C string at `p` outside `cs`. */
  method StrSpn(a: array<char>, p: nat, cs: set<char>, ghost n: nat) returns (k: nat)
    requires StringIn(a[..], p, n) && NUL !in cs
    ensures k == Skip(a[..], p, n, cs)
  {
    k := p;
    while a[k] in cs
      invariant p <= k <= n && AllIn(a[..], p, k, cs)
      decreases n - k
    {
      k := k + 1;
    }
    SkipIs(a[..], p, n, cs, k);
  }

  /** strncasecmp against a lower-case text: is it a prefix of the C string at `p`? */
  method HasPrefix(a: array<char>, p: nat, lit: seq<char>, ghost n: nat) returns (b: bool)
    requires StringIn(a[..], p, n) && NoneIn(lit, 0, |lit|, {NUL})
    ensures b <==> PrefixAt(a[..], p, n, lit)
  {
    var i := 0;
    while i < |lit| && LowerChar(a[p + i]) == lit[i]
      invariant 0 <= i <= |lit| && p + i <= n
      invariant forall j :: 0 <= j < i ==> LowerChar(a[p + j]) == lit[j]
    {
      i := i + 1;
    }
    b := i == |lit|;
  }

  /** strcasecmp against a lower-case text. */
  method StrCaseEq(a: array<char>, p: nat, lit: seq<char>, ghost n: nat) returns (b: bool)
    requires StringIn(a[..], p, n) && NoneIn(lit, 0, |lit|, {NUL})
    ensures b <==> TextAt(a[..], p, n, lit)
  {
    b := HasPrefix(a, p, lit, n);
    b := b && a[p + |lit|] == NUL;
  }

  /** The end of parse_requestline: find the path in the target that fills `[url, n)`. */
  method FindPath(a: array<char>, url: nat, ghost n: nat) returns (path: Pointer)
    requires StringIn(a[..], url, n)
    ensures path == PathStart(a[..], url, n)
  {
    path := At(url);
    var hasScheme := HasPrefix(a, url, "http://", n);
    if hasScheme {
      Found(a[..], url + 7, n, {'/'});
      path := StrPbrk(a, url + 7, {'/'}, n);
    }
    if path.At? && a[path.pos] != '/' {
      path := Null;
    }
  }

  /** From the version on: the target fills `[u, v)` and its C string has been ended at `v`. */
  method CheckVersion(a: array<char>, u: nat, v: nat, ghost n: nat) returns (path: Pointer)
    requires StringIn(a[..], u, v) && v < n && StringIn(a[..], v + 1, n)
    ensures path == AcceptedPath(a[..], u, v, n)
  {
    var version := StrSpn(a, v + 1, BLANKS, n);
    var isHttp11 := StrCaseEq(a, version, "http/1.1", n);
    if !isHttp11 {
      return Null;
    }
    path := FindPath(a, u, v);
  }

  /** Concatenation of the chunks delivered by successive reads. */
  function Flatten(chunks: seq<seq<char>>): seq<char> {
    if chunks == [] then [] else chunks[0] + Flatten(chunks[1..])
  }

  lemma {:induction false} FlattenSplit(chunks: seq<seq<char>>, i: nat)
    requires i <= |chunks|
    ensures Flatten(chunks) == Flatten(chunks[..i]) + Flatten(chunks[i..])
  {
    if i > 0 {
      FlattenSplit(chunks[1..], i - 1);
      assert chunks[..i][1..] == chunks[1..][..i - 1] && chunks[1..][i - 1..] == chunks[i..];
    }
  }

  lemma FlattenNext(chunks: seq<seq<char>>, i: nat)
    requires i < |chunks|
    ensures Flatten(chunks[..i + 1]) == Flatten(chunks[..i]) + chunks[i]
    ensures |Flatten(chunks[..i + 1])| <= |Flatten(chunks)|
  {
    FlattenSplit(chunks[..i + 1], i);
    assert chunks[..i + 1][..i] == chunks[..i] && chunks[..i + 1][i..] == [chunks[i]];
    assert Flatten([chunks[i]]) == chunks[i] + Flatten([]);
    FlattenSplit(chunks, i + 1);
  }

  class RequestParser {
    const buffer: array<char>
    var read: nat
    var checked: nat
    var start: nat
    var status: CheckStatus

    constructor (capacity: nat)
      ensures fresh(buffer) && buffer.Length == capacity && Digested([], NoRequest)
    {
      buffer := new char[capacity](_ => NUL);
      read, checked, start, status := 0, 0, 0, RequestLine;
    }

    /** The bytes received so far. */
    function Bytes(): seq<char>
      requires read <= buffer.Length
      reads this, buffer
    {
      buffer[..read]
    }

    /** What a caller can see when the last call returned `code`. */
    function View(code: HttpCode): Outcome
      requires read <= buffer.Length
      reads this, buffer
    {
      Outcome(code, status, start, checked, Bytes())
    }

    /** The parser has digested the stream `s` and returned `code`. */
    ghost predicate Digested(s: seq<char>, code: HttpCode)
      reads this, buffer
    {
      read == |s| <= buffer.Length && View(code) == OutcomeOf(s)
    }

    /** The driver's read, appending at `buffer + read_index`. */
    method Append(c: seq<char>)
      requires read + |c| <= buffer.Length
      modifies this`read, buffer
      ensures read == old(read) + |c|
      ensures Bytes() == old(Bytes()) + c && buffer[read..] == old(buffer[read + |c|..])
    {
      forall i | 0 <= i < |c| {
        buffer[read + i] := c[i];
      }
      read := read + |c|;
    }

    /** parse_line, from any state: it may also pair an LF with a CR that an earlier call scanned. */
    method ParseLine() returns (ls: LineStatus)
      requires checked <= read <= buffer.Length
      modifies this`checked, buffer
      ensures buffer[read..] == old(buffer[read..])
      ensures checked <= read
      ensures
        var b, c := old(Bytes()), old(checked);
        var k := Find(b, c, |b|, BREAKS);
        if k == c && 1 < k < |b| && b[k] == '\n' && b[k - 1] == '\r' then
          ls == LineOk && checked == k + 1 && Bytes() == CutLine(b, k + 1)
        else
          (ls, checked) == ScanLine(b, c) && Bytes() == if ls.LineOk? then CutLine(b, checked) else b
      ensures ls.LineOpen? ==> OpenAt(old(Bytes()), old(checked), checked)
      ensures ls.LineBad? ==> BrokenAt(old(Bytes()), old(checked), checked)
    {
      ghost var b, c := Bytes(), checked;
      while checked < read
        invariant c <= checked <= read && buffer[..] == old(buffer[..])
        invariant NoneIn(b, c, checked, BREAKS)
      {
        var temp := buffer[checked];
        if temp == '\r' {
          FindIs(b, c, |b|, BREAKS, checked);
          if checked + 1 == read {
            return LineOpen;
          } else if buffer[checked + 1] == '\n' {
            buffer[checked] := NUL;
            checked := checked + 1;
            buffer[checked] := NUL;
            checked := checked + 1;
            return LineOk;
          }
          return LineBad;
        } else if temp == '\n' {
          FindIs(b, c, |b|, BREAKS, checked);
          if checked > 1 && buffer[checked - 1] == '\r' {
            buffer[checked - 1] := NUL;
            buffer[checked] := NUL;
            checked := checked + 1;
            return LineOk;
          }
          return LineBad;
        }
        checked := checked + 1;
      }
      FindIs(b, c, |b|, BREAKS, checked);
      return LineOpen;
    }

    /**
     parse_line as `ParseContent` calls it, ready for the next line of the stream `s`:
     the branch that looks back for a CR never succeeds.
     */
    method NextLine(ghost s: seq<char>) returns (ls: LineStatus)
      requires read == |s| <= buffer.Length && Ready(s, View(NoRequest))
      modifies this`checked, buffer
      ensures buffer[read..] == old(buffer[read..])
      ensures checked <= read
      ensures InLine(s, View(NoRequest), ls)
    {
      ghost var o := View(NoRequest);
      Found(Bytes(), checked, read, BREAKS);
      ls := ParseLine();
      LineFound(s, o, ls, checked, Bytes());
    }

    /** parse_requestline from the end of the method on; the rest of its C string fills `[rest, n)`. */
    method ParseTarget(rest: nat, ghost n: nat, ghost a0: seq<char>) returns (path: Pointer)
      requires 0 < rest && StringIn(buffer[..], rest, n)
      requires n < |a0| && a0[rest - 1 := NUL] == buffer[..]
      modifies buffer
      ensures var t := TokenizeTarget(a0, rest - 1, n); buffer[..] == t.Apply(a0) && path == t.path
    {
      ghost var a1 := buffer[..];
      ScanSame(a0, a1, rest, n, BLANKS);
      var url := StrSpn(buffer, rest, BLANKS, n);
      ScanSame(a0, a1, url, n, BLANKS);
      var gap := StrPbrk(buffer, url, BLANKS, n);
      if gap.Null? {
        return Null;
      }
      buffer[gap.pos] := NUL;
      assert buffer[..] == a1[gap.pos := NUL];
      path := CheckVersion(buffer, url, gap.pos, n);
      AcceptedPathSame(a0, buffer[..], url, gap.pos, n);
    }

    /**
     parse_requestline on the line at `temp`, whose end is marked by the NUL at `end`.
     It writes only what `LineTokens` says, inside the line. `path` is the final value
     of the source's `url` pointer when the line is accepted.
     */
    method ParseRequestLine(temp: nat, ghost end: nat) returns (code: HttpCode, path: Pointer)
      requires temp <= end < buffer.Length && buffer[end] == NUL
      modifies this`status, buffer
      ensures var t := LineTokens(old(buffer[..]), temp, end); buffer[..] == t.Apply(old(buffer[..])) && path == t.path
      ensures if path.At? then code == NoRequest && status == Header else code == BadRequest && status == old(status)
    {
      ghost var a0, n := buffer[..], StringEnd(buffer[..], temp, end);
      Found(a0, temp, end, {NUL});
      var blank := StrPbrk(buffer, temp, BLANKS, n);
      if blank.Null? {
        return BadRequest, Null;
      }
      buffer[blank.pos] := NUL;
      assert buffer[..] == a0[blank.pos := NUL];
      var isGet := StrCaseEq(buffer, temp, "get", blank.pos);
      TextSame(a0, buffer[..], temp, blank.pos, "get");
      assert LineTokens(a0, temp, end) ==
        if isGet then TokenizeTarget(a0, blank.pos, n) else Tokens(At(blank.pos), Null, Null);
      hide LineTokens, TokenizeTarget, StringEnd, Find, TextAt;
      if !isGet {
        return BadRequest, Null;
      }
      path := ParseTarget(blank.pos + 1, n, a0);
      if path.At? {
        status := Header;
        return NoRequest, path;
      }
      return BadRequest, Null;
    }

    /** parse_headers accepts whatever it is given. */
    function ParseHeaders(): HttpCode {
      GetRequest
    }

    /** The CHECK_STATUS_REQUESTLINE case of parse_content. */
    method FirstLineCase(temp: nat, ghost s: seq<char>, ghost o: Outcome) returns (code: HttpCode)
      requires read == |s| <= buffer.Length && InLine(s, o, LineOk) && o.status.RequestLine?
      requires temp == 0 && View(NoRequest) == o.(code := NoRequest, start := o.checked)
      modifies this`status, buffer
      ensures code.NoRequest? ==> status == Header && Ready(s, View(NoRequest))
      ensures !code.NoRequest? ==> code == BadRequest && Stopped(s, View(BadRequest))
      ensures buffer[read..] == old(buffer[read..])
    {
      ghost var a := buffer[..];
      FirstLineOk(s, o, a);
      var path;
      code, path := ParseRequestLine(temp, start - 2);
      ghost var b := buffer[..];
      assert Bytes() == b[..|s|] && buffer[read..] == b[|s|..];
    }

    /** parse_content: reads lines until it needs more bytes or has a verdict. */
    method ParseContent(ghost s: seq<char>) returns (code: HttpCode)
      requires read == |s| <= buffer.Length && Ready(s, View(NoRequest))
      modifies this`checked, this`start, this`status, buffer
      ensures Stopped(s, View(code)) && buffer[read..] == old(buffer[read..])
    {
      hide Ready, Stopped, InLine;
      var ls := NextLine(s);
      while ls == LineOk
        invariant checked <= read && InLine(s, View(NoRequest), ls)
        invariant buffer[read..] == old(buffer[read..])
        decreases if status.RequestLine? then 1 else 0
      {
        ghost var o := View(NoRequest);
        var temp := start;
        start := checked;
        match status {
          case RequestLine =>
            FirstLineStart(s, o);
            code := FirstLineCase(temp, s, o);
            if code == BadRequest {
              return;
            }
          case Header =>
            SecondLineOk(s, o);
            code := ParseHeaders();
            if code == BadRequest || code == GetRequest {
              return;
            }
        }
        ls := NextLine(s);
      }
      LineNotOk(s, View(NoRequest), ls);
      return if ls == LineOpen then NoRequest else BadRequest;
    }

    /**
     One round of the driver: append the bytes of a read and call parse_content. After
     an undecided stream `p` it reaches the outcome of `p` followed by the new bytes.
     */
    method Feed(c: seq<char>, ghost p: seq<char>) returns (code: HttpCode)
      requires Digested(p, NoRequest) && |p| + |c| <= buffer.Length
      modifies this`read, this`checked, this`start, this`status, buffer
      ensures Digested(p + c, code)
    {
      Append(c);
      PendingIsReady(p, c);
      code := ParseContent(p + c);
      StoppedIsOutcome(p + c, View(code));
    }

    /**
     The driver's loop over successive reads, stopping at the first verdict. Whatever
     the split into `chunks`, verdict, status and indices are those of the whole stream,
     and the buffer holds the digested stream as far as it was read.
     */
    method Drive(chunks: seq<seq<char>>) returns (code: HttpCode, used: nat)
      requires Digested([], NoRequest) && |Flatten(chunks)| <= buffer.Length
      modifies this`read, this`checked, this`start, this`status, buffer
      ensures used <= |chunks| && (code.NoRequest? ==> used == |chunks|)
      ensures read == |Flatten(chunks[..used])| <= buffer.Length
      ensures View(code).(bytes := Bytes() + Flatten(chunks[used..])) == OutcomeOf(Flatten(chunks))
      ensures code.NoRequest? ==>
                LineStart(Flatten(chunks), status, start) && OpenAt(Flatten(chunks), start, checked)
    {
      used := 0;
      code := NoRequest;
      ghost var p := [];
      while used < |chunks| && code == NoRequest
        invariant used <= |chunks| && p == Flatten(chunks[..used])
        invariant Digested(p, code)
      {
        FlattenNext(chunks, used);
        code := Feed(chunks[used], p);
        p := p + chunks[used];
        used := used + 1;
      }
      FlattenSplit(chunks, used);
      StateExact(Flatten(chunks));
      if code != NoRequest {
        VerdictIsFinal(p, Flatten(chunks[used..]));
      } else {
        assert chunks[..used] == chunks;
      }
    }
  }
}
