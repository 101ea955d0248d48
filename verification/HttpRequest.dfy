/**
 The resumable parser for HTTP request lines and headers.  The server calls it with whatever
 bytes its read buffer holds, drops the bytes it reports as consumed, and calls it again when
 more have arrived.

 `Parse` is one such call and `Feed` is the server's loop.  In three places the code can look at
 bytes outside the range it was given; what happens then is not up to the input, and the model
 says so with the status `Outside`.  In two places it ends the process, status `Terminated`.
 Nothing is assumed about the input.
 */
module HttpRequests {
  import opened Basics

  datatype Method = INVALID_METHOD | GET | POST | PUT | OPTIONS

  /** `Terminated`: an exception left a function that may not throw, and the process ended.
      `Outside`: a byte outside the given range was read, and what it is decides what comes next. */
  datatype Status =
    | ParsingMethod | ParsingURI | ParsingVersion | ParsingHeaders | Good
    | InvalidMethod | InvalidVersion | InvalidHeader | Terminated | Outside

  datatype Request = Request(
    status: Status, bytes: nat, verb: Method, uri: string, query: string,
    major: nat, minor: nat, headers: map<string, string>)

  function Cleared(): Request {
    Request(ParsingMethod, 0, INVALID_METHOD, "", "", 0, 0, map[])
  }

  // ---------- Scanning ----------

  /** The first position of `c` from `i` on, or the length when there is none. */
  function FindFrom(s: string, c: char, i: nat): (r: nat)
    requires i <= |s|
    ensures i <= r <= |s|
    decreases |s| - i
  {
    if i == |s| || s[i] == c then i else FindFrom(s, c, i + 1)
  }

  function Find(s: string, c: char): (r: nat)
    ensures r <= |s|
  {
    FindFrom(s, c, 0)
  }

  predicate IsSpace(c: char) {
    c == ' ' || c == '\t' || c == '\n' || c == '\U{0B}' || c == '\U{0C}' || c == '\r'
  }

  /** The first position from `i` on that is not white space. */
  function SkipSpaces(s: string, i: nat): (r: nat)
    requires i <= |s|
    ensures i <= r <= |s|
    decreases |s| - i
  {
    if i < |s| && IsSpace(s[i]) then SkipSpaces(s, i + 1) else i
  }

  /** The end of `s[..i]` without its trailing white space. */
  function BackSpaces(s: string, i: nat): (r: nat)
    requires i <= |s|
    ensures r <= i
  {
    if i > 0 && IsSpace(s[i - 1]) then BackSpaces(s, i - 1) else i
  }

  function TrimLeft(s: string): string { s[SkipSpaces(s, 0)..] }

  function TrimRight(s: string): string { s[..BackSpaces(s, |s|)] }

  // ---------- The request line ----------

  function MethodOf(token: string): Method {
    if token == "GET" then GET
    else if token == "POST" then POST
    else if token == "PUT" then PUT
    else if token == "OPTIONS" then OPTIONS
    else INVALID_METHOD
  }

  /** Setting bit 5 of a byte: lower case for letters, something else for anything else. */
  function WithBit5(c: char): int {
    var b := c as int;
    if b / 32 % 2 == 0 then b + 32 else b
  }

  function HexDigit(c: char): int {
    if '0' <= c <= '9' then c as int - '0' as int else WithBit5(c) - 'a' as int + 10
  }

  /** No check that the characters are hexadecimal digits; the result wraps to a byte. */
  function ParseHex(c1: char, c2: char): char {
    ((HexDigit(c1) * 16 + HexDigit(c2)) % 256) as char
  }

  const NUL := '\U{00}'

  /** The decoded URI, with each `?` overwritten by NUL, and where the last `?` was. */
  datatype Decoded = Decoded(text: string, mark: int)

  function Store(d: Decoded, c: char): Decoded {
    if c == '?' then Decoded(d.text + [NUL], |d.text|) else Decoded(d.text + [c], d.mark)
  }

  /** The decoding loop over `src[..n]`; `src` is everything up to the end of the input, and an
      escape may take its digits from beyond `n`.  None when it would read past the input. */
  function Decode(src: string, n: nat, i: nat, d: Decoded): Option<Decoded>
    requires n <= |src|
    decreases n - i
  {
    if i >= n then Some(d)
    else if src[i] == '%' then
      if i + 2 < |src| then Decode(src, n, i + 3, Store(d, ParseHex(src[i + 1], src[i + 2]))) else None
    else Decode(src, n, i + 1, Store(d, src[i]))
  }

  /** A C string: what precedes the first NUL. */
  function CString(s: string): string { s[..Find(s, NUL)] }

  function WithURI(r: Request, src: string, n: nat): Request
    requires n <= |src|
  {
    match Decode(src, n, 0, Decoded("", -1))
    case None => r.(status := Outside)
    case Some(d) =>
      r.(status := ParsingVersion, uri := CString(d.text),
         query := if 0 <= d.mark < |d.text| then CString(d.text[d.mark + 1..]) else r.query)
  }

  /** Without its carriage return, if it ends in one. */
  function Line(s: string): string {
    if s != "" && s[|s| - 1] == '\r' then s[..|s| - 1] else s
  }

  predicate IsVersion(token: string) { token == "HTTP/1.1" || token == "HTTP/1.0" }

  function WithVersion(r: Request, token: string): Request {
    if IsVersion(token) then r.(status := ParsingHeaders, major := 1, minor := if token == "HTTP/1.1" then 1 else 0)
    else r.(status := InvalidVersion)
  }

  // ---------- Headers ----------

  /** The scan for the end of the name runs to the left from the colon, the scan for the start of
      the value to the right, and neither stops at the ends of the line.  A blank value takes the
      second scan behind the line, and a blank name takes the first one before it; the string
      constructor is then given a reversed range and throws.  Only when a blank name begins the
      call's input does the first scan leave the input, and a byte there that is not white
      space makes the name empty instead. */
  function WithHeader(r: Request, line: string, first: bool): Request {
    var mid := Find(line, ':');
    if mid == |line| then r.(status := InvalidHeader)
    else
      var key, value := TrimRight(line[..mid]), TrimLeft(line[mid + 1..]);
      if value == "" then r.(status := Terminated)
      else if key == "" then r.(status := if first then Outside else Terminated)
      else r.(headers := r.headers[key := value])
  }

  // ---------- One call ----------

  predicate InProgress(s: Status) {
    s.ParsingMethod? || s.ParsingURI? || s.ParsingVersion? || s.ParsingHeaders?
  }

  function Delimiter(s: Status): char {
    if s.ParsingMethod? || s.ParsingURI? then ' ' else '\n'
  }

  predicate Failed(s: Status) {
    s.InvalidMethod? || s.InvalidVersion? || s.InvalidHeader? || s.Terminated? || s.Outside?
  }

  /** One piece of the request, whose delimiter is at `n`.  `first` says that the piece starts
      where the input starts, so that nothing precedes it. */
  function Piece(r: Request, input: string, n: nat, first: bool): Request
    requires InProgress(r.status) && n < |input|
  {
    match r.status
    case ParsingMethod =>
      var m := MethodOf(input[..n]);
      if m == INVALID_METHOD then r.(status := InvalidMethod) else r.(status := ParsingURI, verb := m)
    case ParsingURI => WithURI(r, input, n)
    case ParsingVersion =>
      if n == 0 && first then r.(status := Outside) else WithVersion(r, Line(input[..n]))
    case ParsingHeaders =>
      if n <= 1 then r.(status := Good) else WithHeader(r, Line(input[..n]), first)
  }

  /** What is parsed next, and how much of the input it uses up; None when nothing can be. */
  function Step(r: Request, input: string, first: bool): (s: Option<Request>)
    ensures s.Some? ==> r.bytes <= s.value.bytes <= r.bytes + |input|
    ensures s.Some? ==> InProgress(r.status)
    ensures s.Some? && s.value.bytes == r.bytes ==> Failed(s.value.status)
  {
    if !InProgress(r.status) then None
    else
      var n := Find(input, Delimiter(r.status));
      if n == |input| then None
      else
        var next := Piece(r, input, n, first);
        Some(if Failed(next.status) then next else next.(bytes := r.bytes + n + 1))
  }

  /** The request and the part of the input not used up. */
  datatype Outcome = Outcome(request: Request, rest: string)

  function Loop(r: Request, input: string, first: bool): Outcome
    decreases |input|, if InProgress(r.status) then 1 else 0
  {
    match Step(r, input, first)
    case None => Outcome(r, input)
    case Some(next) =>
      var used := next.bytes - r.bytes;
      Loop(next, input[used..], false)
  }

  function Parse(r: Request, input: string): Request { Loop(r, input, true).request }

  // ---------- The server's loop ----------

  /** Each chunk joins what is left in the read buffer; a call; the used bytes are dropped. */
  function Feed(r: Request, pending: string, chunks: seq<string>): Request
    decreases |chunks|
  {
    if chunks == [] then r
    else
      var o := Loop(r, pending + chunks[0], true);
      Feed(o.request, o.rest, chunks[1..])
  }

  function Concat(chunks: seq<string>): string {
    if chunks == [] then "" else chunks[0] + Concat(chunks[1..])
  }

  // ---------- Resuming ----------

  /** The decoding loop stops on a `%` in the last place: its second digit is beyond the
      delimiter. */
  predicate EndsInPercent(uri: string, i: nat)
    decreases |uri| - i
  {
    i < |uri| &&
    if uri[i] == '%' then i == |uri| - 1 || EndsInPercent(uri, i + 3) else EndsInPercent(uri, i + 1)
  }

  /** A header line with a value, but nothing to be seen before its colon. */
  predicate BlankName(line: string) {
    var mid := Find(line, ':');
    mid < |line| && TrimRight(line[..mid]) == "" && TrimLeft(line[mid + 1..]) != ""
  }

  /** What this step does depends on bytes around the piece, not only on the piece. */
  ghost predicate LooksOutside(r: Request, input: string) {
    var n := Find(input, Delimiter(r.status));
    n < |input| &&
    match r.status
    case ParsingURI => EndsInPercent(input[..n], 0)
    case ParsingVersion => n == 0
    case ParsingHeaders => n > 1 && BlankName(Line(input[..n]))
    case _ => false
  }

  ghost predicate LooksOutsideSomewhere(r: Request, input: string)
    decreases |input|, if InProgress(r.status) then 1 else 0
  {
    || LooksOutside(r, input)
    || match Step(r, input, false)
       case None => false
       case Some(next) =>
         var used := next.bytes - r.bytes;
         LooksOutsideSomewhere(next, input[used..])
  }

  lemma {:induction false} FindIs(s: string, c: char, from: nat, i: nat)
    requires from <= i <= |s| && (forall k :: from <= k < i ==> s[k] != c) && (i < |s| ==> s[i] == c)
    ensures FindFrom(s, c, from) == i
    decreases i - from
  {
    if from < i { FindIs(s, c, from + 1, i); }
  }

  lemma {:induction false} FindFacts(s: string, c: char, from: nat)
    requires from <= |s|
    ensures var i := FindFrom(s, c, from); (forall k :: from <= k < i ==> s[k] != c) && (i < |s| ==> s[i] == c)
    decreases |s| - from
  {
    if from < |s| && s[from] != c { FindFacts(s, c, from + 1); }
  }

  lemma {:induction false} FindExtends(a: string, b: string, c: char)
    requires Find(a, c) < |a|
    ensures Find(a + b, c) == Find(a, c)
  {
    FindFacts(a, c, 0);
    FindIs(a + b, c, 0, Find(a, c));
  }

  /** Two inputs that agree up to the delimiter, and beyond it where the last `%` needs more. */
  lemma {:induction false} DecodeAgrees(s: string, t: string, n: nat, i: nat, d: Decoded)
    requires n < |s| && n < |t| && s[..n + 1] == t[..n + 1]
    requires !EndsInPercent(s[..n], i)
    ensures Decode(s, n, i, d) == Decode(t, n, i, d)
    ensures Decode(s, n, i, d).Some?
    decreases n - i
  {
    if i < n {
      assert s[..n][i] == s[i] == s[..n + 1][i] == t[..n + 1][i] == t[i];
      if s[i] == '%' {
        assert s[i + 1] == s[..n + 1][i + 1] == t[i + 1];
        assert s[i + 2] == s[..n + 1][i + 2] == t[i + 2];
        DecodeAgrees(s, t, n, i + 3, Store(d, ParseHex(s[i + 1], s[i + 2])));
      } else {
        DecodeAgrees(s, t, n, i + 1, Store(d, s[i]));
      }
    }
  }

  /** A step that can be taken on a prefix of the input is taken in the same way on all of it. */
  lemma {:induction false} StepExtends(r: Request, a: string, b: string, first: bool)
    requires Step(r, a, first).Some? && !LooksOutside(r, a + b)
    ensures Step(r, a + b, first) == Step(r, a, first)
  {
    hide EndsInPercent, Decode, TrimRight, TrimLeft, FindFrom, MethodOf;
    var c := Delimiter(r.status);
    var n := Find(a, c);
    FindExtends(a, b, c);
    assert (a + b)[..n] == a[..n];
    if r.status.ParsingURI? {
      assert (a + b)[..n + 1] == a[..n + 1];
      DecodeAgrees(a + b, a, n, 0, Decoded("", -1));
    }
  }

  /** Being at the start of the input matters only to steps that look outside, and only they end
      in status `Outside`. */
  lemma {:induction false} StepInside(r: Request, input: string, first: bool)
    requires !LooksOutside(r, input)
    ensures Step(r, input, first) == Step(r, input, false)
    ensures Step(r, input, first).Some? ==> !Step(r, input, first).value.status.Outside?
  {
    hide EndsInPercent, Decode, TrimRight, TrimLeft, FindFrom, MethodOf;
    if r.status.ParsingURI? && Find(input, ' ') < |input| {
      TailDecides(input, Find(input, ' '), 0, Decoded("", -1));
    }
  }

  lemma {:induction false} LoopStops(r: Request, input: string, first: bool)
    requires Step(r, input, first).None?
    ensures Loop(r, input, first) == Outcome(r, input)
  {
    hide Step;
  }

  lemma {:induction false} LoopGoes(r: Request, input: string, first: bool, next: Request)
    requires Step(r, input, first) == Some(next)
    ensures var used := next.bytes - r.bytes; Loop(r, input, first) == Loop(next, input[used..], false)
  {
    hide Step;
  }

  /** The count of a call grows by what it uses up, and what it leaves is the rest of the input. */
  lemma {:induction false} LoopUses(r: Request, input: string, first: bool)
    ensures var o := Loop(r, input, first);
            r.bytes <= o.request.bytes <= r.bytes + |input| && o.rest == input[o.request.bytes - r.bytes..]
    decreases |input|, if InProgress(r.status) then 1 else 0
  {
    hide Step, Loop;
    match Step(r, input, first)
    case None => LoopStops(r, input, first);
    case Some(next) =>
      LoopGoes(r, input, first, next);
      LoopUses(next, input[next.bytes - r.bytes..], false);
  }

  lemma {:induction false} LoopFails(r: Request, input: string, first: bool, next: Request)
    requires Step(r, input, first) == Some(next) && next.bytes == r.bytes
    ensures Loop(r, input, first) == Outcome(next, input)
  {
    hide Loop;
    LoopGoes(r, input, first, next);
    assert input[0..] == input;
    LoopStops(next, input, false);
  }

  lemma {:induction false} OutsideLater(r: Request, input: string, first: bool, next: Request)
    requires !LooksOutside(r, input) && Step(r, input, first) == Some(next)
    ensures var used := next.bytes - r.bytes;
            LooksOutsideSomewhere(r, input) == LooksOutsideSomewhere(next, input[used..])
  {
    hide Step, LooksOutside;
    StepInside(r, input, first);
  }

  lemma {:induction false} OutsideNow(r: Request, input: string)
    ensures LooksOutside(r, input) ==> LooksOutsideSomewhere(r, input)
  {
    hide Step, LooksOutside;
  }

  lemma {:induction false} OutsideNever(r: Request, input: string, first: bool)
    requires !LooksOutside(r, input) && Step(r, input, first).None?
    ensures !LooksOutsideSomewhere(r, input)
  {
    hide Step, LooksOutside;
    StepInside(r, input, first);
  }

  lemma {:induction false} OverIsInside(r: Request, input: string)
    requires !InProgress(r.status)
    ensures !LooksOutsideSomewhere(r, input)
  {
  }

  lemma {:induction false} FirstIsNoMatter(r: Request, input: string)
    requires !LooksOutside(r, input)
    ensures Loop(r, input, true) == Loop(r, input, false)
  {
    hide Step, LooksOutside, Loop;
    StepInside(r, input, true);
    match Step(r, input, true)
    case None =>
      LoopStops(r, input, true);
      LoopStops(r, input, false);
    case Some(next) =>
      LoopGoes(r, input, true, next);
      LoopGoes(r, input, false, next);
  }

  /** A call none of whose steps looks outside ends with a status that the input decides. */
  lemma {:induction false} LoopInside(r: Request, input: string, first: bool)
    ensures !LooksOutsideSomewhere(r, input) && !r.status.Outside? ==> !Loop(r, input, first).request.status.Outside?
    decreases |input|, if InProgress(r.status) then 1 else 0
  {
    hide Step, LooksOutside, Loop, LooksOutsideSomewhere;
    OutsideNow(r, input);
    if !LooksOutside(r, input) {
      StepInside(r, input, first);
      match Step(r, input, first)
      case None => LoopStops(r, input, first);
      case Some(next) =>
        OutsideLater(r, input, first, next);
        LoopGoes(r, input, first, next);
        LoopInside(next, input[next.bytes - r.bytes..], false);
    }
  }

  /** Stopping after a prefix and going on with the rest gives the same as not stopping. */
  lemma {:induction false} Resume(r: Request, a: string, b: string, first: bool)
    ensures !LooksOutsideSomewhere(r, a + b) ==>
              var o := Loop(r, a, first);
              && Loop(r, a + b, first) == Loop(o.request, o.rest + b, true)
              && !LooksOutsideSomewhere(o.request, o.rest + b)
    decreases |a|, if InProgress(r.status) then 1 else 0
  {
    hide Step, LooksOutside, Loop, LooksOutsideSomewhere;
    OutsideNow(r, a + b);
    if !LooksOutside(r, a + b) {
      match Step(r, a, first)
      case None =>
        LoopStops(r, a, first);
        FirstIsNoMatter(r, a + b);
      case Some(next) =>
        StepExtends(r, a, b, first);
        var used := next.bytes - r.bytes;
        assert (a + b)[used..] == a[used..] + b;
        OutsideLater(r, a + b, first, next);
        LoopGoes(r, a, first, next);
        LoopGoes(r, a + b, first, next);
        Resume(next, a[used..], b, false);
    }
  }

  lemma {:induction false} FeedIsOneCall(r: Request, pending: string, chunks: seq<string>)
    ensures !LooksOutsideSomewhere(r, pending + Concat(chunks)) && Loop(r, pending, true) == Outcome(r, pending) ==>
              Feed(r, pending, chunks) == Parse(r, pending + Concat(chunks))
    decreases |chunks|
  {
    hide Loop, LooksOutsideSomewhere;
    if chunks == [] {
      assert pending + Concat(chunks) == pending;
    } else {
      var a, b := pending + chunks[0], Concat(chunks[1..]);
      assert pending + Concat(chunks) == a + b;
      var o := Loop(r, a, true);
      Resume(r, a, b, true);
      Settles(r, a, true);
      FeedIsOneCall(o.request, o.rest, chunks[1..]);
    }
  }

  /** After a call there is nothing more to do on what is left. */
  lemma {:induction false} Settles(r: Request, input: string, first: bool)
    ensures var o := Loop(r, input, first); Loop(o.request, o.rest, true) == o
    decreases |input|, if InProgress(r.status) then 1 else 0
  {
    hide Step, Loop;
    match Step(r, input, first)
    case None =>
      LoopStops(r, input, first);
      NothingNewWhenFirst(r, input, first);
      LoopStops(r, input, true);
    case Some(next) =>
      var used := next.bytes - r.bytes;
      LoopGoes(r, input, first, next);
      Settles(next, input[used..], false);
  }

  lemma {:induction false} NothingNewWhenFirst(r: Request, input: string, first: bool)
    ensures Step(r, input, first).None? ==> Step(r, input, true).None?
  {
  }

  // ---------- Exactly which inputs may be split anywhere ----------

  /** Some header line that the parser gets to has a blank name and a value. */
  predicate FragileLines(rest: string)
    decreases |rest|
  {
    var n := Find(rest, '\n');
    1 < n < |rest| &&
    var line := Line(rest[..n]);
    BlankName(line) || (IsHeader(line) && FragileLines(rest[n + 1..]))
  }

  predicate IsHeader(line: string) {
    var mid := Find(line, ':');
    mid < |line| && TrimRight(line[..mid]) != "" && TrimLeft(line[mid + 1..]) != ""
  }

  predicate FragileVersion(rest: string) {
    var n := Find(rest, '\n');
    n < |rest| && (n == 0 || (IsVersion(Line(rest[..n])) && FragileLines(rest[n + 1..])))
  }

  predicate FragileURI(rest: string) {
    var n := Find(rest, ' ');
    n < |rest| && (EndsInPercent(rest[..n], 0) || FragileVersion(rest[n + 1..]))
  }

  /** After a known method and a space: the last character of the URI is a `%` still to be decoded,
      or the version field is empty, or it is right and a header line has a blank name. */
  predicate Fragile(input: string) {
    var i := Find(input, ' ');
    i < |input| && MethodOf(input[..i]) != INVALID_METHOD && FragileURI(input[i + 1..])
  }

  /** In whatever pieces the input arrives, the outcome is that of one call, and depends on nothing
      but the input. */
  ghost predicate SplitsAnywhere(input: string) {
    forall chunks: seq<string> :: Concat(chunks) == input ==>
      Feed(Cleared(), "", chunks) == Parse(Cleared(), input) && !Feed(Cleared(), "", chunks).status.Outside?
  }

  lemma {:induction false} LinesOutside(r: Request, rest: string)
    requires r.status.ParsingHeaders?
    ensures LooksOutsideSomewhere(r, rest) <==> FragileLines(rest)
    decreases |rest|
  {
    hide Step, FindFrom, LooksOutside, LooksOutsideSomewhere, Line, BlankName, IsHeader;
    var n := Find(rest, '\n');
    OutsideNow(r, rest);
    LineLooksOutside(r, rest);
    if !LooksOutside(r, rest) {
      HeaderStep(r, rest);
      match Step(r, rest, false)
      case None => OutsideNever(r, rest, false);
      case Some(next) =>
        OutsideLater(r, rest, false, next);
        if next.status.ParsingHeaders? {
          assert next.bytes - r.bytes == n + 1;
          LinesOutside(next, rest[n + 1..]);
        } else {
          OverIsInside(next, rest[next.bytes - r.bytes..]);
        }
    }
  }

  lemma {:induction false} LineLooksOutside(r: Request, rest: string)
    requires r.status.ParsingHeaders?
    ensures LooksOutside(r, rest) <==> var n := Find(rest, '\n'); 1 < n < |rest| && BlankName(Line(rest[..n]))
  {
    hide FindFrom, BlankName;
  }

  lemma {:induction false} HeaderStep(r: Request, rest: string)
    requires r.status.ParsingHeaders?
    ensures var n, s := Find(rest, '\n'), Step(r, rest, false);
            && (n == |rest| ==> s.None?)
            && (n < |rest| ==> s.Some? && !s.value.status.ParsingMethod? && !s.value.status.ParsingURI?)
            && (n < |rest| ==> !s.value.status.ParsingVersion? && !s.value.status.Outside?)
            && (n < |rest| ==> (s.value.status.ParsingHeaders? <==> n > 1 && IsHeader(Line(rest[..n]))))
            && (n < |rest| && s.value.status.ParsingHeaders? ==> s.value.bytes == r.bytes + n + 1)
  {
    hide TrimRight, TrimLeft, FindFrom;
  }

  lemma {:induction false} VersionOutside(r: Request, rest: string)
    requires r.status.ParsingVersion?
    ensures LooksOutsideSomewhere(r, rest) <==> FragileVersion(rest)
  {
    hide Step, FindFrom, LooksOutside, LooksOutsideSomewhere, FragileLines, IsVersion, Line;
    var n := Find(rest, '\n');
    OutsideNow(r, rest);
    VersionLooksOutside(r, rest);
    if !LooksOutside(r, rest) {
      VersionStep(r, rest);
      match Step(r, rest, false)
      case None => OutsideNever(r, rest, false);
      case Some(next) =>
        OutsideLater(r, rest, false, next);
        if next.status.ParsingHeaders? {
          assert next.bytes - r.bytes == n + 1;
          LinesOutside(next, rest[n + 1..]);
        } else {
          OverIsInside(next, rest[next.bytes - r.bytes..]);
        }
    }
  }

  lemma {:induction false} VersionLooksOutside(r: Request, rest: string)
    requires r.status.ParsingVersion?
    ensures LooksOutside(r, rest) <==> Find(rest, '\n') == 0 < |rest|
  {
    hide FindFrom;
  }

  lemma {:induction false} VersionStep(r: Request, rest: string)
    requires r.status.ParsingVersion?
    ensures var n, s := Find(rest, '\n'), Step(r, rest, false);
            && (n == |rest| ==> s.None?)
            && (n < |rest| ==> s.Some? && (s.value.status.ParsingHeaders? || s.value.status.InvalidVersion?))
            && (n < |rest| ==> (s.value.status.ParsingHeaders? <==> IsVersion(Line(rest[..n]))))
            && (n < |rest| && s.value.status.ParsingHeaders? ==> s.value.bytes == r.bytes + n + 1)
  {
    hide FindFrom;
  }

  lemma {:induction false} TailDecides(src: string, n: nat, i: nat, d: Decoded)
    requires n < |src|
    ensures Decode(src, n, i, d).None? <==> EndsInPercent(src[..n], i) && n + 1 == |src|
    decreases n - i
  {
    if i < n {
      assert src[..n][i] == src[i];
      if src[i] == '%' {
        if i + 2 < |src| {
          TailDecides(src, n, i + 3, Store(d, ParseHex(src[i + 1], src[i + 2])));
        }
      } else {
        TailDecides(src, n, i + 1, Store(d, src[i]));
      }
    }
  }

  lemma {:induction false} URIStep(r: Request, rest: string, first: bool)
    requires r.status.ParsingURI?
    ensures var n, s := Find(rest, ' '), Step(r, rest, first);
            && (n == |rest| ==> s.None?)
            && (n < |rest| ==> s.Some? && (s.value.status.ParsingVersion? || s.value.status.Outside?))
            && (n < |rest| ==> (s.value.status.Outside? <==> EndsInPercent(rest[..n], 0) && n + 1 == |rest|))
            && (n < |rest| && s.value.status.ParsingVersion? ==> s.value.bytes == r.bytes + n + 1)
  {
    hide FindFrom, Decode, EndsInPercent;
    var n := Find(rest, ' ');
    if n < |rest| { TailDecides(rest, n, 0, Decoded("", -1)); }
  }

  lemma {:induction false} URIOutside(r: Request, rest: string)
    requires r.status.ParsingURI?
    ensures LooksOutsideSomewhere(r, rest) <==> FragileURI(rest)
  {
    hide Step, FindFrom, EndsInPercent, LooksOutside, LooksOutsideSomewhere, FragileVersion;
    var n := Find(rest, ' ');
    OutsideNow(r, rest);
    URILooksOutside(r, rest);
    if !LooksOutside(r, rest) {
      URIStep(r, rest, false);
      match Step(r, rest, false)
      case None => OutsideNever(r, rest, false);
      case Some(next) =>
        OutsideLater(r, rest, false, next);
        assert next.bytes - r.bytes == n + 1;
        VersionOutside(next, rest[n + 1..]);
    }
  }

  lemma {:induction false} URILooksOutside(r: Request, rest: string)
    requires r.status.ParsingURI?
    ensures LooksOutside(r, rest) <==> var n := Find(rest, ' '); n < |rest| && EndsInPercent(rest[..n], 0)
  {
    hide FindFrom, EndsInPercent;
  }

  lemma {:induction false} MethodStep(input: string)
    ensures var i, s := Find(input, ' '), Step(Cleared(), input, true);
            && (i == |input| ==> s.None?)
            && (i < |input| && MethodOf(input[..i]) == INVALID_METHOD ==> s == Some(Cleared().(status := InvalidMethod)))
            && (i < |input| && MethodOf(input[..i]) != INVALID_METHOD ==>
                  s == Some(Cleared().(status := ParsingURI, verb := MethodOf(input[..i]), bytes := i + 1)))
  {
    hide FindFrom, MethodOf;
  }

  /** The test on the input says exactly whether some step of the run looks outside its piece. */
  lemma {:induction false} FragileMeansLooksOutside(input: string)
    ensures Fragile(input) <==> LooksOutsideSomewhere(Cleared(), input)
  {
    hide Step, FindFrom, MethodOf, LooksOutsideSomewhere, FragileURI;
    var r, i := Cleared(), Find(input, ' ');
    MethodStep(input);
    match Step(r, input, true)
    case None => OutsideNever(r, input, true);
    case Some(next) =>
      OutsideLater(r, input, true, next);
      if next.status.ParsingURI? { URIOutside(next, input[i + 1..]); }
      else { OverIsInside(next, input[next.bytes - r.bytes..]); }
  }

  // ---------- Where to cut a fragile input ----------

  /** A call on the first `k` bytes, then one on what is left and the rest, looks outside. */
  ghost predicate CutShows(r: Request, input: string, first: bool, k: nat) {
    k <= |input| &&
    var o := Loop(r, input[..k], first);
    Loop(o.request, o.rest + input[k..], true).request.status.Outside?
  }

  lemma {:induction false} CutURI(r: Request, input: string, first: bool)
    requires r.status.ParsingURI? && LooksOutside(r, input)
    ensures CutShows(r, input, first, Find(input, ' ') + 1)
  {
    hide FindFrom, Step, Loop, EndsInPercent;
    var n := Find(input, ' ');
    var a := input[..n + 1];
    FindOfPrefix(input, n + 1, ' ');
    assert a[..n] == input[..n];
    URIStep(r, a, first);
    var next := Step(r, a, first).value;
    LoopGoes(r, a, first, next);
    LoopStops(next, a[next.bytes - r.bytes..], false);
    var o := Loop(r, a, first);
    LoopStops(o.request, o.rest + input[n + 1..], true);
  }

  /** An empty version or a blank name at the start of a call. */
  lemma {:induction false} OutsideAtStart(r: Request, input: string)
    requires (r.status.ParsingVersion? || r.status.ParsingHeaders?) && LooksOutside(r, input)
    ensures Step(r, input, true) == Some(r.(status := Outside))
  {
    hide FindFrom, TrimRight, TrimLeft;
  }

  lemma {:induction false} CutBefore(r: Request, input: string, first: bool)
    requires (r.status.ParsingVersion? || r.status.ParsingHeaders?) && LooksOutside(r, input)
    ensures CutShows(r, input, first, 0)
  {
    hide Loop, Step, LooksOutside;
    assert input[..0] == "" && "" + input[0..] == input;
    LoopEmpty(r, first);
    OutsideAtStart(r, input);
    LoopFails(r, input, true, r.(status := Outside));
  }

  lemma {:induction false} StepUsed(r: Request, input: string, first: bool)
    requires Step(r, input, first).Some?
    ensures var n, next := Find(input, Delimiter(r.status)), Step(r, input, first).value;
            n < |input| && (Failed(next.status) || next.bytes == r.bytes + n + 1)
  {
    hide FindFrom, Piece;
  }

  lemma {:induction false} StepOfPrefix(r: Request, input: string, first: bool, k: nat)
    requires Find(input, Delimiter(r.status)) < k <= |input| && InProgress(r.status)
    ensures Step(r, input[..k], first).Some?
  {
    hide FindFrom, Piece;
    FindOfPrefix(input, k, Delimiter(r.status));
  }

  lemma {:induction false} CutLater(r: Request, input: string, first: bool, next: Request, k: nat)
    requires !LooksOutside(r, input) && Step(r, input, first) == Some(next) && !Failed(next.status)
    requires CutShows(next, input[next.bytes - r.bytes..], false, k)
    ensures CutShows(r, input, first, next.bytes - r.bytes + k)
  {
    hide FindFrom, Step, Loop, LooksOutside;
    var used := next.bytes - r.bytes;
    var a, b := input[..used + k], input[used + k..];
    assert a + b == input && a[used..] == input[used..][..k] && input[used..][k..] == b;
    StepUsed(r, input, first);
    StepOfPrefix(r, input, first, used + k);
    StepExtends(r, a, b, first);
    LoopGoes(r, a, first, next);
  }

  /** A run that looks outside somewhere looks outside its input when cut there. */
  lemma {:induction false} WhereToCut(r: Request, input: string, first: bool) returns (k: nat)
    requires LooksOutsideSomewhere(r, input)
    ensures CutShows(r, input, first, k)
    decreases |input|, if InProgress(r.status) then 1 else 0
  {
    hide FindFrom, Step, LooksOutside, CutShows;
    if LooksOutside(r, input) {
      k := CutHere(r, input, first);
    } else {
      StepInside(r, input, first);
      var next := Step(r, input, false).value;
      var used := next.bytes - r.bytes;
      if Failed(next.status) {
        OverIsInside(next, input[used..]);
        assert false;
      } else {
        var k' := WhereToCut(next, input[used..], false);
        CutLater(r, input, first, next, k');
        k := used + k';
      }
    }
  }

  lemma {:induction false} CutHere(r: Request, input: string, first: bool) returns (k: nat)
    requires LooksOutside(r, input)
    ensures CutShows(r, input, first, k)
  {
    hide FindFrom, CutShows, EndsInPercent, BlankName;
    if r.status.ParsingURI? {
      k := Find(input, ' ') + 1;
      CutURI(r, input, first);
    } else {
      k := 0;
      CutBefore(r, input, first);
    }
  }

  lemma {:induction false} TwoChunks(input: string, k: nat)
    requires k <= |input|
    ensures Concat([input[..k], input[k..]]) == input
  {
    var a, b := input[..k], input[k..];
    assert [a, b][1..] == [b] && [b][1..] == [];
    assert Concat([b]) == b + "";
  }

  lemma {:induction false} FeedTwo(r: Request, a: string, b: string)
    ensures var o := Loop(r, a, true); Feed(r, "", [a, b]) == Loop(o.request, o.rest + b, true).request
  {
    hide Loop;
    assert "" + a == a && [a, b][1..] == [b] && [b][1..] == [];
    var o := Loop(r, a, true);
    assert Feed(r, "", [a, b]) == Feed(o.request, o.rest, [b]);
  }

  lemma {:induction false} FindOfPrefix(s: string, k: nat, c: char)
    requires Find(s, c) < k <= |s|
    ensures Find(s[..k], c) == Find(s, c)
  {
    FindFacts(s, c, 0);
    FindIs(s[..k], c, 0, Find(s, c));
  }

  /** Every fragile input can be cut in two so that the parser looks outside what it is given. */
  lemma {:induction false} FragileSplit(input: string)
    requires Fragile(input)
    ensures exists chunks :: Concat(chunks) == input && Feed(Cleared(), "", chunks).status.Outside?
  {
    hide Fragile, LooksOutsideSomewhere, Loop, Feed, Concat;
    FragileMeansLooksOutside(input);
    var k := WhereToCut(Cleared(), input, true);
    TwoChunks(input, k);
    FeedTwo(Cleared(), input[..k], input[k..]);
  }

  /** However the bytes arrive, in however many pieces, the outcome is that of one call on all
      of them - status, fields, headers and byte count - and depends on them alone, exactly when
      the input is not fragile. */
  lemma {:induction false} ChunkingIndependence(input: string)
    ensures SplitsAnywhere(input) <==> !Fragile(input)
  {
    hide Fragile, LooksOutsideSomewhere, Loop, Feed, Concat;
    FragileMeansLooksOutside(input);
    if Fragile(input) {
      FragileSplit(input);
    } else {
      forall chunks: seq<string> | Concat(chunks) == input
        ensures Feed(Cleared(), "", chunks) == Parse(Cleared(), input)
        ensures !Parse(Cleared(), input).status.Outside?
      {
        assert "" + Concat(chunks) == input;
        LoopEmpty(Cleared(), true);
        FeedIsOneCall(Cleared(), "", chunks);
        LoopInside(Cleared(), input, true);
      }
    }
  }

  lemma {:induction false} LoopEmpty(r: Request, first: bool)
    ensures Loop(r, "", first) == Outcome(r, "")
  {
    assert Step(r, "", first).None?;
    LoopStops(r, "", first);
  }

  // ---------- One call on everything ----------

  lemma {:induction false} PastURIStep(r: Request, input: string)
    requires !r.status.ParsingMethod? && !r.status.ParsingURI? && Step(r, input, false).Some?
    ensures var s := Step(r, input, false).value.status; !s.ParsingMethod? && !s.ParsingURI? && !s.Outside?
  {
    hide Step, FindFrom, IsVersion, IsHeader, Line;
    if r.status.ParsingVersion? { VersionStep(r, input); } else { HeaderStep(r, input); }
  }

  /** Past the URI only the start of a call looks outside. */
  lemma {:induction false} PastURI(r: Request, input: string)
    requires !r.status.ParsingMethod? && !r.status.ParsingURI? && !r.status.Outside?
    ensures !Loop(r, input, false).request.status.Outside?
    decreases |input|, if InProgress(r.status) then 1 else 0
  {
    hide Step, Loop;
    match Step(r, input, false)
    case None => LoopStops(r, input, false);
    case Some(next) =>
      PastURIStep(r, input);
      LoopGoes(r, input, false, next);
      PastURI(next, input[next.bytes - r.bytes..]);
  }

  /** One call on the whole input looks outside it exactly when the input ends with the space
      behind a URI that ends in a `%`.  So on every other fragile input a cut changes the outcome. */
  lemma {:induction false} OneCallOutsideIff(input: string)
    ensures Parse(Cleared(), input).status.Outside? <==>
            var i := Find(input, ' ');
            && i < |input| && MethodOf(input[..i]) != INVALID_METHOD
            && var rest := input[i + 1..];
               var n := Find(rest, ' ');
               n + 1 == |rest| && EndsInPercent(rest[..n], 0)
  {
    hide Step, Loop, FindFrom, MethodOf, EndsInPercent;
    var r, i := Cleared(), Find(input, ' ');
    MethodStep(input);
    match Step(r, input, true)
    case None => LoopStops(r, input, true);
    case Some(next) =>
      LoopGoes(r, input, true, next);
      if next.status.ParsingURI? {
        OutsideAtURI(next, input[i + 1..]);
      } else {
        LoopStops(next, input[next.bytes - r.bytes..], false);
      }
  }

  lemma {:induction false} OutsideAtURI(r: Request, rest: string)
    requires r.status.ParsingURI?
    ensures Loop(r, rest, false).request.status.Outside? <==>
            var n := Find(rest, ' '); n + 1 == |rest| && EndsInPercent(rest[..n], 0)
  {
    hide Step, Loop, FindFrom, EndsInPercent;
    URIStep(r, rest, false);
    match Step(r, rest, false)
    case None => LoopStops(r, rest, false);
    case Some(next) =>
      LoopGoes(r, rest, false, next);
      if next.status.Outside? { LoopStops(next, rest[next.bytes - r.bytes..], false); }
      else { PastURI(next, rest[next.bytes - r.bytes..]); }
  }

  /** A URI that ends in `%`, an empty version field, a blank header name. */
  lemma {:induction false} FragileExamples()
    ensures Fragile("GET /% HTTP/1.1\n") && Fragile("GET / \n") && Fragile("GET / HTTP/1.1\n: x\n\n")
  {
    hide Fragile, FragileURI, FragileVersion;
    PercentLast("/% HTTP/1.1\n");
    KnownMethod("/% HTTP/1.1\n");
    assert "GET " + "/% HTTP/1.1\n" == "GET /% HTTP/1.1\n";
    NoVersion();
    Slash("\n");
    KnownMethod("/ " + "\n");
    assert "GET " + ("/ " + "\n") == "GET / \n";
    NoName();
    Slash("HTTP/1.1\n: x\n\n");
    KnownMethod("/ " + "HTTP/1.1\n: x\n\n");
    assert "GET " + ("/ " + "HTTP/1.1\n: x\n\n") == "GET / HTTP/1.1\n: x\n\n";
  }

  lemma {:induction false} PercentLast(rest: string)
    requires rest == "/% HTTP/1.1\n"
    ensures FragileURI(rest)
  {
    hide FindFrom, FragileVersion;
    FindIs(rest, ' ', 0, 2);
    var uri := rest[..2];
    assert EndsInPercent(uri, 1);
  }

  lemma {:induction false} NoVersion()
    ensures FragileVersion("\n")
  {
    FindIs("\n", '\n', 0, 0);
  }

  lemma {:induction false} NoName()
    ensures FragileVersion("HTTP/1.1\n: x\n\n")
  {
    hide FindFrom, FragileLines;
    var rest := "HTTP/1.1\n: x\n\n";
    FindIs(rest, '\n', 0, 8);
    assert rest[..8] == "HTTP/1.1" && rest[9..] == ": x\n\n";
    NamelessLine();
  }

  lemma {:induction false} KnownMethod(rest: string)
    ensures FragileURI(rest) ==> Fragile("GET " + rest)
  {
    hide FindFrom, FragileURI;
    var input := "GET " + rest;
    FindIs(input, ' ', 0, 3);
    assert input[..3] == "GET" && input[4..] == rest;
  }

  lemma {:induction false} Slash(rest: string)
    ensures FragileVersion(rest) ==> FragileURI("/ " + rest)
  {
    hide FindFrom, FragileVersion, EndsInPercent;
    var input := "/ " + rest;
    FindIs(input, ' ', 0, 1);
    assert input[2..] == rest;
  }

  lemma {:induction false} NamelessLine()
    ensures FragileLines(": x\n\n")
  {
    hide FindFrom;
    var rest, line := ": x\n\n", ": x";
    FindIs(rest, '\n', 0, 3);
    FindIs(line, ':', 0, 0);
    assert rest[..3] == line && line[..0] == "" && line[1..] == " x";
    assert SkipSpaces(" x", 0) == SkipSpaces(" x", 1) == 1;
  }

  // ---------- The object ----------

  /** The same search, seen from the whole input and from the part not yet used. */
  lemma {:induction false} FindInRest(input: string, c: char, begin: nat, i: nat)
    requires begin <= i <= |input|
    ensures FindFrom(input[begin..], c, i - begin) + begin == FindFrom(input, c, i)
    decreases |input| - i
  {
    if i < |input| && input[i] != c { FindInRest(input, c, begin, i + 1); }
  }

  /** What has used `begin` bytes and finds no further delimiter can take no step. */
  lemma {:induction false} NothingFound(r: Request, input: string, begin: nat)
    requires InProgress(r.status) && begin <= |input|
    requires FindFrom(input, Delimiter(r.status), begin) == |input|
    ensures Step(r, input[begin..], begin == 0).None?
  {
    hide Piece;
    FindInRest(input, Delimiter(r.status), begin, begin);
  }

  /** A call that finds a delimiter parses the piece before it, and goes on behind it if it can. */
  lemma {:induction false} PieceTaken(r: Request, input: string, begin: nat, finish: nat, next: Request)
    requires InProgress(r.status) && begin <= finish < |input|
    requires FindFrom(input, Delimiter(r.status), begin) == finish
    requires next == Piece(r, input[begin..], finish - begin, begin == 0)
    ensures Step(r, input[begin..], begin == 0)
         == Some(if Failed(next.status) then next else next.(bytes := r.bytes + (finish + 1 - begin)))
  {
    hide Piece;
    FindInRest(input, Delimiter(r.status), begin, begin);
  }

  lemma {:induction false} PieceKeepsBytes(r: Request, input: string, n: nat, first: bool)
    requires InProgress(r.status) && n < |input|
    ensures Piece(r, input, n, first).bytes == r.bytes
  {
  }

  method FindFirstOf(input: string, begin: nat, c: char) returns (finish: nat)
    requires begin <= |input|
    ensures finish == FindFrom(input, c, begin)
  {
    finish := begin;
    while finish < |input| && input[finish] != c
      invariant begin <= finish <= |input| && FindFrom(input, c, begin) == FindFrom(input, c, finish)
    {
      finish := finish + 1;
    }
  }

  class RequestParser {
    var status_: Status
    var bytes_: nat
    var method_: Method
    var uri_: string
    var query_: string
    var http_version_major_: nat
    var http_version_minor_: nat
    var headers_: map<string, string>

    ghost function Now(): Request
      reads this
    {
      Request(status_, bytes_, method_, uri_, query_, http_version_major_, http_version_minor_, headers_)
    }

    constructor ()
      ensures Now() == Cleared()
    {
      status_, bytes_, method_ := ParsingMethod, 0, INVALID_METHOD;
      uri_, query_, http_version_major_, http_version_minor_, headers_ := "", "", 0, 0, map[];
    }

    /** One call.  The four cases of the switch fall through, each setting the next status. */
    method ParseInput(input: string)
      modifies this
      ensures Now() == Parse(old(Now()), input)
    {
      hide Loop, Piece;
      var begin := 0;
      ghost var whole := Loop(Now(), input, true).request;
      assert input[0..] == input;
      if !InProgress(status_) {
        NothingLeft(Now(), input);
        return;
      }
      if status_ == ParsingMethod {
        var more;
        begin, more := TakePiece(input, begin);
        if !more { return; }
      }
      if status_ == ParsingURI {
        var more;
        begin, more := TakePiece(input, begin);
        if !more { return; }
      }
      if status_ == ParsingVersion {
        var more;
        begin, more := TakePiece(input, begin);
        if !more { return; }
      }
      while status_ == ParsingHeaders
        invariant begin <= |input|
        invariant status_ == ParsingHeaders || status_ == Good
        invariant Surrounded(status_, input, begin)
        invariant whole == Loop(Now(), input[begin..], begin == 0).request
        decreases |input| - begin, if status_ == ParsingHeaders then 1 else 0
      {
        var more;
        begin, more := TakePiece(input, begin);
        if !more { return; }
      }
      NothingLeft(Now(), input[begin..]);
    }

    /** One case of the switch: find the delimiter, parse up to it, count, move on. */
    method TakePiece(input: string, begin: nat) returns (begin': nat, more: bool)
      requires InProgress(status_) && Surrounded(status_, input, begin)
      modifies this
      ensures more ==> begin < begin' <= |input| && !Failed(status_) && status_ != ParsingMethod
      ensures more ==> status_ == AfterPiece(old(status_)) || (old(status_) == ParsingHeaders && status_ == Good)
      ensures more ==> Surrounded(status_, input, begin')
      ensures more ==> Loop(old(Now()), input[begin..], begin == 0).request == Loop(Now(), input[begin'..], false).request
      ensures !more ==> Loop(old(Now()), input[begin..], begin == 0).request == Now()
    {
      hide Loop, Step, Piece, FindFrom, Surrounded;
      begin' := begin;
      SurroundedRange(status_, input, begin);
      var finish := FindFirstOf(input, begin, Delimiter(status_));
      if finish == |input| {
        NothingFound(Now(), input, begin);
        LoopStops(Now(), input[begin..], begin == 0);
        return begin, false;
      }
      ghost var r := Now();
      FindFacts(input, Delimiter(status_), begin);
      more := ParsePiece(input, begin, finish);
      PieceTaken(r, input, begin, finish, Now());
      PieceStatus(r, input[begin..], finish - begin, begin == 0);
      PieceKeepsBytes(r, input[begin..], finish - begin, begin == 0);
      if more {
        PieceSurrounds(r, input, begin, finish, Now());
        bytes_ := bytes_ + (finish + 1 - begin);
        begin' := finish + 1;
        LoopGoes(r, input[begin..], begin == 0, Now());
        assert input[begin..][finish + 1 - begin..] == input[begin'..];
      } else {
        LoopFails(r, input[begin..], begin == 0, Now());
      }
    }

    method ParsePiece(input: string, begin: nat, finish: nat) returns (flag: bool)
      requires InProgress(status_) && begin <= finish < |input| && input[finish] == Delimiter(status_)
      requires Surrounded(status_, input, begin)
      modifies this
      ensures Now() == Piece(old(Now()), input[begin..], finish - begin, begin == 0)
      ensures flag == !Failed(status_)
    {
      hide FindFrom, TrimRight, TrimLeft, Decode;
      ghost var rest := input[begin..];
      assert rest[..finish - begin] == input[begin..finish];
      match status_ {
      case ParsingMethod =>
        ParseMethod(input[begin..finish]);
      case ParsingURI =>
        ParseURI(input[begin..], finish - begin);
      case ParsingVersion =>
        if finish == 0 {
          status_ := Outside;
        } else if input[finish - 1] == '\r' {
          assert Line(input[begin..finish]) == input[begin..finish - 1];
          ParseHttpVersion(input[begin..finish - 1]);
        } else {
          assert Line(input[begin..finish]) == input[begin..finish];
          ParseHttpVersion(input[begin..finish]);
        }
      case ParsingHeaders =>
        if begin == finish || begin + 1 == finish {
          status_ := Good;
        } else {
          var end := if input[finish - 1] == '\r' then finish - 1 else finish;
          assert Line(input[begin..finish]) == input[begin..end];
          ParseHeader(input, begin, end);
        }
      }
      flag := !Failed(status_);
    }

    method ParseMethod(token: string)
      modifies this`status_, this`method_
      ensures MethodOf(token) == INVALID_METHOD ==> status_ == InvalidMethod && method_ == old(method_)
      ensures MethodOf(token) != INVALID_METHOD ==> status_ == ParsingURI && method_ == MethodOf(token)
    {
      var m := MethodOf(token);
      if m == INVALID_METHOD {
        status_ := InvalidMethod;
      } else {
        method_, status_ := m, ParsingURI;
      }
    }

    method ParseHttpVersion(token: string)
      modifies this
      ensures Now() == WithVersion(old(Now()), token)
    {
      if token == "HTTP/1.1" {
        http_version_major_, http_version_minor_ := 1, 1;
      } else if token == "HTTP/1.0" {
        http_version_major_, http_version_minor_ := 1, 0;
      } else {
        status_ := InvalidVersion;
        return;
      }
      status_ := ParsingHeaders;
    }

    method ParseURI(src: string, n: nat)
      requires n <= |src|
      modifies this
      ensures Now() == WithURI(old(Now()), src, n)
    {
      var temp, query_index := "", -1;
      var i := 0;
      while i < n
        invariant Decode(src, n, 0, Decoded("", -1)) == Decode(src, n, i, Decoded(temp, query_index))
        invariant -1 <= query_index < |temp|
        decreases n - i
      {
        var c;
        if src[i] == '%' {
          if i + 2 >= |src| {
            status_ := Outside;
            return;
          }
          c := ParseHex(src[i + 1], src[i + 2]);
          i := i + 3;
        } else {
          c := src[i];
          i := i + 1;
        }
        if c == '?' {
          query_index := |temp|;
          c := NUL;
        }
        temp := temp + [c];
      }
      if query_index != -1 {
        query_ := CString(temp[query_index + 1..]);
      }
      uri_ := CString(temp);
      status_ := ParsingVersion;
    }

    method ParseHeader(input: string, begin: nat, end: nat)
      requires begin <= end < |input| && IsSpace(input[end]) && Surrounded(ParsingHeaders, input, begin)
      modifies this
      ensures Now() == WithHeader(old(Now()), input[begin..end], begin == 0)
    {
      hide FindFrom, WithHeader, Surrounded;
      var mid := FindFirstOf(input[..end], begin, ':');
      if mid == end {
        NoColon(Now(), input, begin, end);
        status_ := InvalidHeader;
        return;
      }
      var left := ScanLeft(input, mid);
      var right := ScanRight(input, mid + 1);
      HeaderScanned(Now(), input, begin, mid, end, left, right);
      if (0 < left < begin) || right > end {
        status_ := Terminated;
      } else if left == 0 {
        status_ := Outside;
      } else {
        headers_ := headers_[input[begin..left] := input[right..end]];
      }
    }
  }

  /** White space before `mid` and after `from`, over the whole input and not only over the line. */
  ghost predicate SpacesBefore(input: string, left: nat, mid: nat) {
    left <= mid <= |input| && (forall k :: left <= k < mid ==> IsSpace(input[k])) && (left > 0 ==> !IsSpace(input[left - 1]))
  }

  ghost predicate SpacesAfter(input: string, from: nat, right: nat) {
    from <= right <= |input| && (forall k :: from <= k < right ==> IsSpace(input[k])) && (right < |input| ==> !IsSpace(input[right]))
  }

  method ScanLeft(input: string, mid: nat) returns (left: nat)
    requires mid <= |input|
    ensures SpacesBefore(input, left, mid)
  {
    left := mid;
    while left > 0 && IsSpace(input[left - 1])
      invariant 0 <= left <= mid && forall k :: left <= k < mid ==> IsSpace(input[k])
    {
      left := left - 1;
    }
  }

  method ScanRight(input: string, from: nat) returns (right: nat)
    requires from <= |input|
    ensures SpacesAfter(input, from, right)
  {
    right := from;
    while right < |input| && IsSpace(input[right])
      invariant from <= right <= |input| && forall k :: from <= k < right ==> IsSpace(input[k])
    {
      right := right + 1;
    }
  }

  lemma {:induction false} ColonAt(input: string, begin: nat, end: nat)
    requires begin <= end <= |input|
    ensures Find(input[begin..end], ':') + begin == FindFrom(input[..end], ':', begin)
  {
    assert input[..end][begin..] == input[begin..end];
    FindInRest(input[..end], ':', begin, begin);
  }

  lemma {:induction false} NoColon(r: Request, input: string, begin: nat, end: nat)
    requires begin <= end <= |input| && FindFrom(input[..end], ':', begin) == end
    ensures WithHeader(r, input[begin..end], begin == 0) == r.(status := InvalidHeader)
  {
    hide FindFrom;
    ColonAt(input, begin, end);
  }

  /** What the two scans found, seen from the line. */
  lemma {:induction false} HeaderScanned(r: Request, input: string, begin: nat, mid: nat, end: nat, left: nat, right: nat)
    requires begin <= mid < end < |input| && IsSpace(input[end]) && Surrounded(ParsingHeaders, input, begin)
    requires FindFrom(input[..end], ':', begin) == mid
    requires SpacesBefore(input, left, mid) && SpacesAfter(input, mid + 1, right)
    ensures WithHeader(r, input[begin..end], begin == 0) ==
            if (0 < left < begin) || right > end then r.(status := Terminated)
            else if left == 0 then r.(status := Outside)
            else r.(headers := r.headers[input[begin..left] := input[right..end]])
  {
    hide FindFrom, TrimLeft, TrimRight, SpacesBefore, SpacesAfter, Surrounded;
    var line, m := input[begin..end], mid - begin;
    ColonAt(input, begin, end);
    NameScanned(input, begin, mid, end, left);
    ValueScanned(input, begin, mid, end, right);
    var key, value := TrimRight(line[..m]), TrimLeft(line[m + 1..]);
    assert Find(line, ':') == m;
    assert value == "" <==> right > end;
    assert key == "" <==> left <= begin;
  }

  lemma {:induction false} NameScanned(input: string, begin: nat, mid: nat, end: nat, left: nat)
    requires begin <= mid < end < |input| && Surrounded(ParsingHeaders, input, begin) && SpacesBefore(input, left, mid)
    ensures left <= mid && (left <= begin ==> (left == 0 <==> begin == 0) && (begin > 0 ==> left < begin))
    ensures TrimRight(input[begin..end][..mid - begin]) == if left <= begin then "" else input[begin..left]
  {
    var line, k := input[begin..end], if left <= begin then 0 else left - begin;
    assert forall j :: k <= j < mid - begin ==> line[j] == input[begin + j];
    assert k > 0 ==> line[k - 1] == input[left - 1];
    assert line[..k] == if left <= begin then "" else input[begin..left];
    TrimmedName(line, mid - begin, k);
  }

  lemma {:induction false} ValueScanned(input: string, begin: nat, mid: nat, end: nat, right: nat)
    requires begin <= mid < end < |input| && IsSpace(input[end]) && SpacesAfter(input, mid + 1, right)
    ensures TrimLeft(input[begin..end][mid - begin + 1..]) == if right > end then "" else input[right..end]
    ensures right != end
  {
    var line, k := input[begin..end], if right > end then end - begin else right - begin;
    assert forall j :: mid + 1 - begin <= j < k ==> line[j] == input[begin + j];
    assert k < |line| ==> line[k] == input[right];
    assert line[k..] == if right > end then "" else input[right..end];
    TrimmedValue(line, mid + 1 - begin, k);
  }

  lemma {:induction false} TrimmedName(line: string, mid: nat, k: nat)
    requires k <= mid <= |line| && (forall j :: k <= j < mid ==> IsSpace(line[j])) && (k > 0 ==> !IsSpace(line[k - 1]))
    ensures TrimRight(line[..mid]) == line[..k]
  {
    BackSpacesIs(line[..mid], mid, k);
  }

  lemma {:induction false} BackSpacesIs(s: string, i: nat, k: nat)
    requires k <= i <= |s| && (forall j :: k <= j < i ==> IsSpace(s[j])) && (k > 0 ==> !IsSpace(s[k - 1]))
    ensures BackSpaces(s, i) == k
  {
    if k < i { BackSpacesIs(s, i - 1, k); }
  }

  lemma {:induction false} TrimmedValue(line: string, from: nat, k: nat)
    requires from <= k <= |line| && (forall j :: from <= j < k ==> IsSpace(line[j])) && (k < |line| ==> !IsSpace(line[k]))
    ensures TrimLeft(line[from..]) == line[k..]
  {
    SkipSpacesIs(line[from..], 0, k - from);
  }

  lemma {:induction false} SkipSpacesIs(s: string, i: nat, k: nat)
    requires i <= k <= |s| && (forall j :: i <= j < k ==> IsSpace(s[j])) && (k < |s| ==> !IsSpace(s[k]))
    ensures SkipSpaces(s, i) == k
    decreases k - i
  {
    if i < k { SkipSpacesIs(s, i + 1, k); }
  }

  /** What stands before a piece that does not begin the call's input: a space before the version,
      and before a header line a line break with something to be seen before it. */
  ghost predicate Surrounded(s: Status, input: string, begin: nat) {
    && begin <= |input|
    && (s.ParsingVersion? && begin > 0 ==> input[begin - 1] == ' ')
    && (s.ParsingHeaders? && begin > 0 ==>
          input[begin - 1] == '\n' && exists j :: 0 <= j < begin && !IsSpace(input[j]))
  }

  lemma {:induction false} SurroundedRange(s: Status, input: string, begin: nat)
    requires Surrounded(s, input, begin)
    ensures begin <= |input|
  {
  }

  lemma {:induction false} PieceSurrounds(r: Request, input: string, begin: nat, finish: nat, next: Request)
    requires InProgress(r.status) && begin <= finish < |input| && input[finish] == Delimiter(r.status)
    requires next == Piece(r, input[begin..], finish - begin, begin == 0) && !Failed(next.status)
    ensures Surrounded(next.status, input, finish + 1)
  {
    hide FindFrom, TrimLeft, TrimRight, Decode, Line;
    var piece := input[begin..finish];
    assert input[begin..][..finish - begin] == piece;
    if next.status.ParsingHeaders? {
      VisibleLine(piece);
      var j :| 0 <= j < |piece| && !IsSpace(piece[j]);
      assert input[begin + j] == piece[j];
    }
  }

  /** A version or a header line has something to be seen in it. */
  lemma {:induction false} VisibleLine(piece: string)
    requires var line := Line(piece);
             IsVersion(line) || (Find(line, ':') < |line| && TrimRight(line[..Find(line, ':')]) != "")
    ensures exists j :: 0 <= j < |piece| && !IsSpace(piece[j])
  {
    hide FindFrom, BackSpaces;
    var line := Line(piece);
    if IsVersion(line) {
      assert piece[0] == line[0] == 'H';
    } else {
      var mid := Find(line, ':');
      var k := BackSpaces(line[..mid], mid);
      EndOfName(line[..mid], mid);
      assert piece[k - 1] == line[k - 1];
    }
  }

  lemma {:induction false} EndOfName(s: string, i: nat)
    requires i <= |s|
    ensures var k := BackSpaces(s, i); k > 0 ==> !IsSpace(s[k - 1])
  {
    if i > 0 && IsSpace(s[i - 1]) { EndOfName(s, i - 1); }
  }

  function AfterPiece(s: Status): Status {
    match s
    case ParsingMethod => ParsingURI
    case ParsingURI => ParsingVersion
    case _ => ParsingHeaders
  }

  lemma {:induction false} PieceStatus(r: Request, input: string, n: nat, first: bool)
    requires InProgress(r.status) && n < |input|
    ensures var s := Piece(r, input, n, first).status;
            Failed(s) || s == AfterPiece(r.status) || (r.status == ParsingHeaders && s == Good)
  {
  }

  lemma {:induction false} NothingLeft(r: Request, input: string)
    requires !InProgress(r.status)
    ensures forall first :: Loop(r, input, first).request == r
  {
    hide Loop;
    forall first
      ensures Loop(r, input, first).request == r
    {
      LoopStops(r, input, first);
    }
  }
}
