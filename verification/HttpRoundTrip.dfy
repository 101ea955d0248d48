/**
 What the parser is for: a request written out as section 3 of RFC 7230 asks, with its target
 percent-encoded as in section 2.1 of RFC 3986, is read back exactly.
 */
module HttpRoundTrip {
  import opened Basics
  import opened HttpRequests

  // ---------- Writing a request ----------

  function HexChar(d: nat, upper: bool): char
    requires d < 16
  {
    if upper then "0123456789ABCDEF"[d] else "0123456789abcdef"[d]
  }

  predicate IsByte(c: char) { c as int < 256 }

  /** One byte of the target: as it is, or escaped, which any byte may be, with digits in either case. */
  datatype Mark = Plain(c: char) | Escaped(c: char, upper1: bool, upper2: bool) {
    predicate Valid() { IsByte(c) && (Plain? ==> c != '%' && c != ' ') }

    function Spelled(): string
      requires Valid()
    {
      if Plain? then [c] else ['%', HexChar(c as int / 16, upper1), HexChar(c as int % 16, upper2)]
    }
  }

  predicate Writable(marks: seq<Mark>) { forall i :: 0 <= i < |marks| ==> marks[i].Valid() }

  function Spell(marks: seq<Mark>): string
    requires Writable(marks)
  {
    if marks == [] then "" else marks[0].Spelled() + Spell(marks[1..])
  }

  /** What the marks stand for. */
  function Text(marks: seq<Mark>): (t: string)
    ensures |t| == |marks|
  {
    seq(|marks|, i requires 0 <= i < |marks| => marks[i].c)
  }

  /** A path, and a query if there is one, in any spelling. */
  datatype Target = Target(path: seq<Mark>, query: Option<seq<Mark>>) {
    predicate Valid() { Proper(path) && (query.Some? ==> Proper(query.value)) }

    function Marks(): seq<Mark> {
      match query case None => path case Some(q) => path + [Plain('?')] + q
    }

    function Query(): string { match query case None => "" case Some(q) => Text(q) }
  }

  /** The decoded text is a C string, and only a question mark between path and query counts. */
  predicate Proper(marks: seq<Mark>) {
    Writable(marks) && forall i :: 0 <= i < |marks| ==> marks[i].c != '?' && marks[i].c != NUL
  }

  function TargetText(t: Target): string
    requires t.Valid()
  {
    Spell(t.Marks())
  }

  function NameOf(m: Method): string
    requires m != INVALID_METHOD
  {
    match m case GET => "GET" case POST => "POST" case PUT => "PUT" case OPTIONS => "OPTIONS"
  }

  /** White space within a line. */
  predicate Padding(s: string) { forall i :: 0 <= i < |s| ==> IsSpace(s[i]) && s[i] != '\n' }

  predicate WithoutBreak(s: string) { forall i :: 0 <= i < |s| ==> s[i] != '\n' }

  /** A name, white space, a colon, white space and a value; with or without a carriage return. */
  datatype Header = Header(key: string, before: string, after: string, value: string, cr: bool) {
    predicate Valid() {
      && key != "" && !IsSpace(key[|key| - 1]) && value != "" && !IsSpace(value[0])
      && (forall i :: 0 <= i < |key| ==> key[i] != ':') && WithoutBreak(key) && WithoutBreak(value)
      && Padding(before) && Padding(after) && (!cr ==> value[|value| - 1] != '\r')
    }

    function Content(): string { key + before + ":" + after + value }
  }

  function Ending(cr: bool): string { if cr then "\r" else "" }

  function HeaderLine(h: Header): string { h.Content() + Ending(h.cr) }

  /** The header lines, and the line that ends them. */
  function HeaderLines(headers: seq<Header>, last: string): string {
    if headers == [] then last + "\n" else HeaderLine(headers[0]) + "\n" + HeaderLines(headers[1..], last)
  }

  function VersionName(minor: nat): string { if minor == 1 then "HTTP/1.1" else "HTTP/1.0" }

  function VersionLine(minor: nat, cr: bool): string { VersionName(minor) + Ending(cr) }

  /** A request as it may be written.  `last` ends the headers: nothing, or any one character. */
  datatype Message = Message(verb: Method, target: Target, minor: nat, cr: bool, headers: seq<Header>, last: string) {
    predicate Valid() {
      && verb != INVALID_METHOD && target.Valid() && minor <= 1 && |last| <= 1 && WithoutBreak(last)
      && forall i :: 0 <= i < |headers| ==> headers[i].Valid()
    }
  }

  /** What follows the request line. */
  function Tail(m: Message): string { HeaderLines(m.headers, m.last) }

  function Write(m: Message): string
    requires m.Valid()
  {
    NameOf(m.verb) + " " + (TargetText(m.target) + " " + (VersionLine(m.minor, m.cr) + "\n" + Tail(m)))
  }

  /** Later headers replace earlier ones of the same name. */
  function Collect(headers: seq<Header>, into: map<string, string>): map<string, string> {
    if headers == [] then into else Collect(headers[1..], into[headers[0].key := headers[0].value])
  }

  // ---------- One piece ----------

  /** One piece that contains no delimiter, followed by its delimiter. */
  lemma {:induction false} ReadPiece(r: Request, piece: string, rest: string, first: bool, next: Request)
    requires InProgress(r.status) && forall i :: 0 <= i < |piece| ==> piece[i] != Delimiter(r.status)
    requires var input := piece + [Delimiter(r.status)] + rest; next == Piece(r, input, |piece|, first)
    requires !Failed(next.status)
    ensures Loop(r, piece + [Delimiter(r.status)] + rest, first)
         == Loop(next.(bytes := r.bytes + |piece| + 1), rest, false)
  {
    hide Loop, Piece;
    var input := piece + [Delimiter(r.status)] + rest;
    FindIs(input, Delimiter(r.status), 0, |piece|);
    LoopGoes(r, input, first, next.(bytes := r.bytes + |piece| + 1));
    assert input[|piece| + 1..] == rest;
  }

  /** One that is refused, or that ends the process: nothing is counted, and nothing else is looked at. */
  lemma {:induction false} RefusePiece(r: Request, piece: string, rest: string, first: bool, next: Request)
    requires InProgress(r.status) && forall i :: 0 <= i < |piece| ==> piece[i] != Delimiter(r.status)
    requires var input := piece + [Delimiter(r.status)] + rest; next == Piece(r, input, |piece|, first)
    requires Failed(next.status)
    ensures Loop(r, piece + [Delimiter(r.status)] + rest, first) == Outcome(next, piece + [Delimiter(r.status)] + rest)
  {
    hide Loop, Piece;
    var input := piece + [Delimiter(r.status)] + rest;
    FindIs(input, Delimiter(r.status), 0, |piece|);
    PieceKeepsBytes(r, input, |piece|, first);
    LoopFails(r, input, first, next);
  }

  // ---------- The method ----------

  lemma {:induction false} ReadMethod(m: Method, rest: string)
    requires m != INVALID_METHOD
    ensures Loop(Cleared(), NameOf(m) + " " + rest, true)
         == Loop(Cleared().(status := ParsingURI, verb := m, bytes := |NameOf(m)| + 1), rest, false)
  {
    hide Loop;
    var input := NameOf(m) + " " + rest;
    assert input[..|NameOf(m)|] == NameOf(m);
    assert " " == [' '];
    ReadPiece(Cleared(), NameOf(m), rest, true, Cleared().(status := ParsingURI, verb := m));
  }

  /** A request is refused for its method, with nothing read, exactly when that is none of the four. */
  lemma {:induction false} MethodRefusedIff(name: string, rest: string)
    requires forall i :: 0 <= i < |name| ==> name[i] != ' '
    ensures Parse(Cleared(), name + " " + rest) == Cleared().(status := InvalidMethod) <==>
            name != "GET" && name != "POST" && name != "PUT" && name != "OPTIONS"
  {
    hide Loop;
    if name == "GET" || name == "POST" || name == "PUT" || name == "OPTIONS" {
      var m := if name == "GET" then GET else if name == "POST" then POST else if name == "PUT" then PUT else OPTIONS;
      ReadMethod(m, rest);
      LoopUses(Cleared().(status := ParsingURI, verb := m, bytes := |NameOf(m)| + 1), rest, false);
    } else {
      var input := name + " " + rest;
      assert input[..|name|] == name;
      assert " " == [' '];
      RefusePiece(Cleared(), name, rest, true, Cleared().(status := InvalidMethod));
    }
  }

  // ---------- The target ----------

  /** One character after a `%` as the source reads it, whether it is a hexadecimal digit or not. */
  function Nibble(b: bv8): int { if 48 <= b as int <= 57 then b as int - 48 else (b | 32) as int - 97 + 10 }

  lemma {:induction false} NibbleIs(b: bv8)
    ensures Nibble(b) == HexDigit(b as char)
  {
    BitFiveSet(b);
  }

  lemma {:induction false} BitFiveSet(b: bv8)
    ensures (b | 32) as int == WithBit5(b as char)
  {
  }

  /** Any two characters make a byte, as the source's byte arithmetic does. */
  lemma {:induction false} HexOfAnything(b1: bv8, b2: bv8)
    ensures ParseHex(b1 as char, b2 as char) as int == (Nibble(b1) * 16 + Nibble(b2)) % 256
  {
    hide HexDigit, Nibble;
    NibbleIs(b1);
    NibbleIs(b2);
  }

  lemma {:induction false} HexRoundTrip(b: nat, upper1: bool, upper2: bool)
    requires b < 256
    ensures ParseHex(HexChar(b / 16, upper1), HexChar(b % 16, upper2)) as int == b
  {
    hide HexChar, HexDigit;
    HexDigitOf(b / 16, upper1);
    HexDigitOf(b % 16, upper2);
  }

  lemma {:induction false} HexDigitOf(d: nat, upper: bool)
    requires d < 16
    ensures HexDigit(HexChar(d, upper)) == d
  {
  }

  /** Storing what the marks stand for, one after the other. */
  function StoreAll(d: Decoded, marks: seq<Mark>): Decoded
    decreases |marks|
  {
    if marks == [] then d else StoreAll(Store(d, marks[0].c), marks[1..])
  }

  /** Decoding undoes spelling, whichever bytes were escaped. */
  lemma {:induction false} DecodeSpell(before: string, marks: seq<Mark>, after: string, n: nat, d: Decoded)
    requires Writable(marks) && |before| + |Spell(marks)| <= n <= |before| + |Spell(marks)| + |after|
    ensures var src := before + Spell(marks) + after;
            Decode(src, n, |before|, d) == Decode(src, n, |before| + |Spell(marks)|, StoreAll(d, marks))
    ensures !EndsInPercent(before + Spell(marks), |before|)
    decreases |marks|
  {
    hide Store, Decode, EndsInPercent;
    if marks == [] {
      PercentPast(before + Spell(marks), |before|);
    } else {
      var m, rest := marks[0], marks[1..];
      var s := m.Spelled();
      assert before + Spell(marks) == before + s + Spell(rest);
      assert before + Spell(marks) + after == before + s + (Spell(rest) + after);
      DecodeMark(before, m, Spell(rest) + after, n, d);
      DecodeMark(before, m, Spell(rest), |before + s + Spell(rest)|, d);
      DecodeSpell(before + s, rest, after, n, Store(d, m.c));
    }
  }

  lemma {:induction false} PercentPast(uri: string, i: nat)
    requires i >= |uri|
    ensures !EndsInPercent(uri, i)
  {
  }

  /** One mark. */
  lemma {:induction false} DecodeMark(before: string, m: Mark, after: string, n: nat, d: Decoded)
    requires m.Valid() && |before| + |m.Spelled()| <= n <= |before| + |m.Spelled()| + |after|
    ensures var src, i := before + m.Spelled() + after, |before|;
            && Decode(src, n, i, d) == Decode(src, n, i + |m.Spelled()|, Store(d, m.c))
            && (EndsInPercent(src, i) <==> EndsInPercent(src, i + |m.Spelled()|))
  {
    hide ParseHex, HexChar, Store;
    var s := m.Spelled();
    var src, i := before + s + after, |before|;
    assert src[i] == s[0];
    if m.Escaped? {
      HexRoundTrip(m.c as int, m.upper1, m.upper2);
      assert src[i + 1] == s[1] && src[i + 2] == s[2];
    }
  }

  /** An escape cut short by the end of the URI takes its digits from behind it: the space, and what
      follows the space. */
  lemma {:induction false} CutEscape(marks: seq<Mark>, d: Decoded, x: char, rest: string)
    requires Writable(marks)
    ensures var n, all := |Spell(marks)|, StoreAll(d, marks);
            && Decode(Spell(marks) + ("%" + [x] + " " + rest), n + 2, 0, d) == Some(Store(all, ParseHex(x, ' ')))
            && Decode(Spell(marks) + ("% " + [x] + rest), n + 1, 0, d) == Some(Store(all, ParseHex(' ', x)))
  {
    hide ParseHex, Store, StoreAll, Spell;
    var n, all := |Spell(marks)|, StoreAll(d, marks);
    var one, none := "%" + [x] + " " + rest, "% " + [x] + rest;
    assert "" + Spell(marks) == Spell(marks);
    DecodeSpell("", marks, one, n + 2, d);
    DecodeSpell("", marks, none, n + 1, d);
    CutHere(Spell(marks), one, 2, all);
    CutHere(Spell(marks), none, 1, all);
  }

  lemma {:induction false} CutHere(before: string, after: string, k: nat, d: Decoded)
    requires |after| > 2 && 1 <= k <= 2 && after[0] == '%'
    ensures Decode(before + after, |before| + k, |before|, d) == Some(Store(d, ParseHex(after[1], after[2])))
  {
    hide ParseHex, Store;
    var src, i := before + after, |before|;
    assert src[i] == '%' && src[i + 1] == after[1] && src[i + 2] == after[2];
  }

  lemma {:induction false} HexCharNoSpace(d: nat, upper: bool)
    requires d < 16
    ensures HexChar(d, upper) != ' '
  {
  }

  lemma {:induction false} SpellHasNoSpace(marks: seq<Mark>)
    requires Writable(marks)
    ensures forall i :: 0 <= i < |Spell(marks)| ==> Spell(marks)[i] != ' '
  {
    hide HexChar;
    if marks != [] {
      var m := marks[0];
      SpellHasNoSpace(marks[1..]);
      HexCharNoSpace(m.c as int / 16, if m.Escaped? then m.upper1 else true);
      HexCharNoSpace(m.c as int % 16, if m.Escaped? then m.upper2 else true);
    }
  }

  /** The text with each question mark overwritten. */
  function Blanked(text: string): (b: string)
    ensures |b| == |text|
  {
    seq(|text|, i requires 0 <= i < |text| => if text[i] == '?' then NUL else text[i])
  }

  /** `q` is where the last question mark is, or -1. */
  ghost predicate LastQuestion(text: string, q: int) {
    && -1 <= q < |text| && (q >= 0 ==> text[q] == '?') && forall k :: q < k < |text| ==> text[k] != '?'
  }

  /** What the decoding loop ends with, for any marks at all. */
  lemma {:induction false} StoreAllIs(d: Decoded, marks: seq<Mark>, q: int)
    requires LastQuestion(Text(marks), q)
    ensures StoreAll(d, marks) == Decoded(d.text + Blanked(Text(marks)), if q < 0 then d.mark else |d.text| + q)
    decreases |marks|
  {
    if marks == [] {
      assert d.text + Blanked(Text(marks)) == d.text;
    } else {
      var c, rest := marks[0].c, marks[1..];
      assert Text(rest) == Text(marks)[1..] && c == Text(marks)[0];
      StoreAllIs(Store(d, c), rest, if q <= 0 then -1 else q - 1);
      assert Store(d, c).text + Blanked(Text(rest)) == d.text + Blanked(Text(marks));
    }
  }

  /** `i` is the first position from `from` on where one of the stops is, or the end. */
  ghost predicate StopsAt(text: string, from: nat, i: nat, stops: set<char>) {
    from <= i <= |text| && (forall k :: from <= k < i ==> text[k] !in stops) && (i < |text| ==> text[i] in stops)
  }

  lemma {:induction false} FieldsOf(text: string, i: nat, q: int, j: nat)
    requires LastQuestion(text, q) && StopsAt(text, 0, i, {'?', NUL}) && StopsAt(text, q + 1, j, {NUL})
    ensures CString(Blanked(text)) == text[..i] && CString(Blanked(text)[q + 1..]) == text[q + 1..j]
  {
    FirstField(text, i);
    LastField(text, q, j);
  }

  lemma {:induction false} FirstField(text: string, i: nat)
    requires StopsAt(text, 0, i, {'?', NUL})
    ensures CString(Blanked(text)) == text[..i]
  {
    hide FindFrom;
    var b := Blanked(text);
    FindIs(b, NUL, 0, i);
    assert b[..i] == text[..i];
  }

  lemma {:induction false} LastField(text: string, q: int, j: nat)
    requires LastQuestion(text, q) && StopsAt(text, q + 1, j, {NUL})
    ensures CString(Blanked(text)[q + 1..]) == text[q + 1..j]
  {
    hide FindFrom, Blanked;
    BlankedAfter(text, q);
    TailStops(text, q + 1, j);
    FindIs(text[q + 1..], NUL, 0, j - (q + 1));
    assert text[q + 1..][..j - (q + 1)] == text[q + 1..j];
  }

  lemma {:induction false} TailStops(text: string, from: nat, j: nat)
    requires StopsAt(text, from, j, {NUL})
    ensures var tail, n := text[from..], j - from;
            n <= |tail| && (forall k :: 0 <= k < n ==> tail[k] != NUL) && (n < |tail| ==> tail[n] == NUL)
  {
    forall k | 0 <= k < j - from
      ensures text[from..][k] != NUL
    {
      assert text[from + k] !in {NUL};
    }
  }

  lemma {:induction false} BlankedAfter(text: string, q: int)
    requires LastQuestion(text, q)
    ensures Blanked(text)[q + 1..] == text[q + 1..]
  {
  }

  /** Any target at all: the URI is the text before the first question mark or NUL, the query the text
      between the last question mark and the next NUL. */
  lemma {:induction false} ReadAnyTarget(r: Request, marks: seq<Mark>, rest: string, i: nat, q: int, j: nat)
    requires r.status.ParsingURI? && Writable(marks)
    requires var text := Text(marks);
             LastQuestion(text, q) && StopsAt(text, 0, i, {'?', NUL}) && StopsAt(text, q + 1, j, {NUL})
    ensures var text := Text(marks);
            Loop(r, Spell(marks) + " " + rest, false)
            == Loop(r.(status := ParsingVersion, uri := text[..i], query := if q < 0 then r.query else text[q + 1..j],
                       bytes := r.bytes + |Spell(marks)| + 1), rest, false)
  {
    hide Loop, Spell, Decode, StoreAll, CString, EndsInPercent, LastQuestion, StopsAt;
    var spelled, text := Spell(marks), Text(marks);
    var input := spelled + " " + rest;
    assert input == "" + spelled + (" " + rest);
    DecodeSpell("", marks, " " + rest, |spelled|, Decoded("", -1));
    DecodeDone("" + spelled + (" " + rest), |spelled|, StoreAll(Decoded("", -1), marks));
    StoreAllIs(Decoded("", -1), marks, q);
    assert "" + Blanked(text) == Blanked(text);
    FieldsInRange(text, i, q, j);
    FieldsOf(text, i, q, j);
    SpellHasNoSpace(marks);
    assert " " == [' '];
    var next := r.(status := ParsingVersion, uri := text[..i], query := if q < 0 then r.query else text[q + 1..j]);
    ReadPiece(r, spelled, rest, false, next);
  }

  lemma {:induction false} DecodeDone(src: string, n: nat, d: Decoded)
    requires n <= |src|
    ensures Decode(src, n, n, d) == Some(d)
  {
  }

  lemma {:induction false} FieldsInRange(text: string, i: nat, q: int, j: nat)
    requires LastQuestion(text, q) && StopsAt(text, 0, i, {'?', NUL}) && StopsAt(text, q + 1, j, {NUL})
    ensures -1 <= q < j <= |text| && i <= |text|
  {
  }

  lemma {:induction false} MarksWritable(t: Target)
    requires t.Valid()
    ensures Writable(t.Marks())
  {
  }

  lemma {:induction false} ReadTarget(r: Request, t: Target, rest: string)
    requires r.status.ParsingURI? && r.query == "" && t.Valid()
    ensures Loop(r, TargetText(t) + " " + rest, false)
         == Loop(r.(status := ParsingVersion, uri := Text(t.path), query := t.Query(),
                    bytes := r.bytes + |TargetText(t)| + 1), rest, false)
  {
    hide Loop, Spell;
    MarksWritable(t);
    var text, n := Text(t.Marks()), |t.path|;
    match t.query
    case None =>
      assert text[..n] == Text(t.path);
      ReadAnyTarget(r, t.Marks(), rest, n, -1, n);
    case Some(q) =>
      assert text[..n] == Text(t.path) && text[n + 1..|text|] == Text(q);
      ReadAnyTarget(r, t.Marks(), rest, n, n, |text|);
  }

  // ---------- The version ----------

  lemma {:induction false} ReadVersion(r: Request, minor: nat, cr: bool, rest: string)
    requires r.status.ParsingVersion? && minor <= 1
    ensures Loop(r, VersionLine(minor, cr) + "\n" + rest, false)
         == Loop(r.(status := ParsingHeaders, major := 1, minor := minor, bytes := r.bytes + |VersionLine(minor, cr)| + 1),
                 rest, false)
  {
    hide Loop, Piece, VersionLine;
    assert "\n" == ['\n'];
    VersionPiece(r, VersionLine(minor, cr), rest);
    VersionIs(r, minor, cr);
    ReadPiece(r, VersionLine(minor, cr), rest, false, r.(status := ParsingHeaders, major := 1, minor := minor));
  }

  lemma {:induction false} VersionPiece(r: Request, line: string, rest: string)
    requires r.status.ParsingVersion?
    ensures Piece(r, line + ['\n'] + rest, |line|, false) == WithVersion(r, Line(line))
  {
    hide WithVersion, Line;
    assert (line + ['\n'] + rest)[..|line|] == line;
  }

  lemma {:induction false} VersionIs(r: Request, minor: nat, cr: bool)
    requires minor <= 1
    ensures WithVersion(r, Line(VersionLine(minor, cr))) == r.(status := ParsingHeaders, major := 1, minor := minor)
    ensures WithoutBreak(VersionLine(minor, cr))
  {
    var line, name := VersionLine(minor, cr), VersionName(minor);
    assert |name| == 8 && (cr ==> line[..8] == name);
  }

  predicate KnownVersion(line: string) {
    line == "HTTP/1.1" || line == "HTTP/1.1\r" || line == "HTTP/1.0" || line == "HTTP/1.0\r"
  }

  lemma {:induction false} RefuseVersion(r: Request, line: string, rest: string)
    requires r.status.ParsingVersion? && WithoutBreak(line) && !KnownVersion(line)
    ensures Loop(r, line + "\n" + rest, false).request == r.(status := InvalidVersion)
  {
    hide Loop, Piece, Line, IsVersion;
    assert "\n" == ['\n'];
    UnknownVersion(line);
    VersionPiece(r, line, rest);
    RefusePiece(r, line, rest, false, r.(status := InvalidVersion));
  }

  lemma {:induction false} UnknownVersion(line: string)
    ensures IsVersion(Line(line)) <==> KnownVersion(line)
  {
    if line != "" && line[|line| - 1] == '\r' { assert line == Line(line) + "\r"; }
  }

  /** A request is refused for its version, with the rest of the request line read, exactly when that
      is neither of the two names. */
  lemma {:induction false} VersionRefusedIff(m: Method, t: Target, line: string, rest: string)
    requires m != INVALID_METHOD && t.Valid() && WithoutBreak(line)
    ensures var start := NameOf(m) + " " + (TargetText(t) + " " + "");
            var input := NameOf(m) + " " + (TargetText(t) + " " + (line + "\n" + rest));
            var refused := Request(InvalidVersion, |start|, m, Text(t.path), t.Query(), 0, 0, map[]);
            Parse(Cleared(), input) == refused <==> !KnownVersion(line)
  {
    hide Loop, TargetText, NameOf, KnownVersion;
    var lines := line + "\n" + rest;
    ReadMethod(m, TargetText(t) + " " + lines);
    var r := Cleared().(status := ParsingURI, verb := m, bytes := |NameOf(m)| + 1);
    ReadTarget(r, t, lines);
    assert TargetText(t) + " " + lines == TargetText(t) + (" " + lines);
    var r2 := r.(status := ParsingVersion, uri := Text(t.path), query := t.Query(),
                 bytes := r.bytes + |TargetText(t)| + 1);
    if KnownVersion(line) {
      var minor, cr := NamesVersion(line);
      ReadVersion(r2, minor, cr, rest);
      LoopUses(r2.(status := ParsingHeaders, major := 1, minor := minor, bytes := r2.bytes + |line| + 1), rest, false);
    } else {
      RefuseVersion(r2, line, rest);
    }
  }

  lemma {:induction false} NamesVersion(line: string) returns (minor: nat, cr: bool)
    requires KnownVersion(line)
    ensures minor <= 1 && line == VersionLine(minor, cr)
  {
    minor := if line == "HTTP/1.1" || line == "HTTP/1.1\r" then 1 else 0;
    cr := line == "HTTP/1.1\r" || line == "HTTP/1.0\r";
  }

  // ---------- Headers ----------

  /** White space is the six characters of C's `isspace`. */
  lemma {:induction false} SpacesAre(c: char)
    ensures IsSpace(c) <==> c as int == 32 || 9 <= c as int <= 13
  {
  }

  /** A line of text, with or without a carriage return, that does not end in another. */
  predicate LineOf(line: string, text: string) {
    line == text + "\r" || (line == text && (text == "" || text[|text| - 1] != '\r'))
  }

  lemma {:induction false} LineIs(line: string, text: string)
    requires LineOf(line, text)
    ensures Line(line) == text
  {
    if line == text + "\r" { assert line[..|text|] == text; }
  }

  lemma {:induction false} HeaderPiece(r: Request, line: string, text: string, rest: string)
    requires r.status.ParsingHeaders? && |line| > 1 && LineOf(line, text)
    ensures Piece(r, line + ['\n'] + rest, |line|, false) == WithHeader(r, text, false)
  {
    hide WithHeader, Line;
    var input := line + ['\n'] + rest;
    assert input[..|line|] == line;
    LineIs(line, text);
  }

  /** A line without a colon is refused, ... */
  lemma {:induction false} NoColonRefused(r: Request, line: string, text: string, rest: string)
    requires r.status.ParsingHeaders? && |line| > 1 && LineOf(line, text) && WithoutBreak(line)
    requires forall i :: 0 <= i < |text| ==> text[i] != ':'
    ensures Loop(r, line + "\n" + rest, false) == Outcome(r.(status := InvalidHeader), line + "\n" + rest)
  {
    hide Loop, Piece;
    assert "\n" == ['\n'];
    FindIs(text, ':', 0, |text|);
    HeaderPiece(r, line, text, rest);
    RefusePiece(r, line, rest, false, r.(status := InvalidHeader));
  }

  /** ... one with nothing to be seen before its colon, or behind it, ends the process ... */
  lemma {:induction false} BlankEndsProcess(r: Request, line: string, name: string, value: string, rest: string)
    requires r.status.ParsingHeaders? && |line| > 1 && LineOf(line, name + ":" + value) && WithoutBreak(line)
    requires forall i :: 0 <= i < |name| ==> name[i] != ':'
    requires (forall i :: 0 <= i < |name| ==> IsSpace(name[i])) || (forall i :: 0 <= i < |value| ==> IsSpace(value[i]))
    ensures Loop(r, line + "\n" + rest, false) == Outcome(r.(status := Terminated), line + "\n" + rest)
  {
    hide Loop, Piece, TrimLeft, TrimRight;
    assert "\n" == ['\n'];
    var text := name + ":" + value;
    FindIs(text, ':', 0, |name|);
    assert text[..|name|] == name && text[|name| + 1..] == value;
    if forall i :: 0 <= i < |name| ==> IsSpace(name[i]) { BlankRight(name); }
    if forall i :: 0 <= i < |value| ==> IsSpace(value[i]) { BlankLeft(value); }
    HeaderPiece(r, line, text, rest);
    RefusePiece(r, line, rest, false, r.(status := Terminated));
  }

  lemma {:induction false} BlankRight(name: string)
    requires forall i :: 0 <= i < |name| ==> IsSpace(name[i])
    ensures TrimRight(name) == ""
  {
    BackSpacesIs(name, |name|, 0);
  }

  lemma {:induction false} BlankLeft(value: string)
    requires forall i :: 0 <= i < |value| ==> IsSpace(value[i])
    ensures TrimLeft(value) == ""
  {
    SkipSpacesIs(value, 0, |value|);
  }

  /** ... a line of at most one character ends the headers, and what follows is left alone; ... */
  lemma {:induction false} ReadEnd(r: Request, last: string, rest: string)
    requires r.status.ParsingHeaders? && |last| <= 1 && WithoutBreak(last)
    ensures Loop(r, last + "\n" + rest, false) == Outcome(r.(status := Good, bytes := r.bytes + |last| + 1), rest)
  {
    hide Loop, Piece;
    var good := r.(status := Good);
    assert "\n" == ['\n'];
    EndPiece(r, last + ['\n'] + rest, |last|);
    ReadPiece(r, last, rest, false, good);
    LoopStops(good.(bytes := r.bytes + |last| + 1), rest, false);
  }

  lemma {:induction false} EndPiece(r: Request, input: string, n: nat)
    requires r.status.ParsingHeaders? && n <= 1 && n < |input|
    ensures Piece(r, input, n, false) == r.(status := Good)
  {
  }

  lemma {:induction false} SplitLine(h: Header)
    requires h.Valid()
    ensures var line, mid := h.Content(), |h.key| + |h.before|;
            && LineOf(HeaderLine(h), line) && Find(line, ':') == mid && mid < |line|
            && TrimRight(line[..mid]) == h.key && TrimLeft(line[mid + 1..]) == h.value
  {
    hide FindFrom, TrimRight, TrimLeft;
    ContentParts(h);
    var line, mid := h.Content(), |h.key| + |h.before|;
    assert HeaderLine(h) == line + Ending(h.cr);
    FindIs(line, ':', 0, mid);
    TrimmedName(line, mid, |h.key|);
    TrimmedValue(line, mid + 1, mid + 1 + |h.after|);
  }

  /** The parts of a header line, by position. */
  lemma {:induction false} ContentParts(h: Header)
    requires h.Valid()
    ensures var line, mid := h.Content(), |h.key| + |h.before|;
            var from := mid + 1 + |h.after|;
            && |line| == from + |h.value| && line[mid] == ':' && (forall i :: 0 <= i < mid ==> line[i] != ':')
            && line[..|h.key|] == h.key && line[from..] == h.value
            && (forall i :: |h.key| <= i < mid ==> IsSpace(line[i])) && (forall i :: mid < i < from ==> IsSpace(line[i]))
            && line[|line| - 1] == h.value[|h.value| - 1]
  {
    var line, mid := h.Content(), |h.key| + |h.before|;
    forall i | |h.key| <= i < mid
      ensures line[i] == h.before[i - |h.key|]
    {
    }
    forall i | mid < i < mid + 1 + |h.after|
      ensures line[i] == h.after[i - (mid + 1)]
    {
    }
  }

  lemma {:induction false} LineHasNoNewline(h: Header)
    requires h.Valid()
    ensures WithoutBreak(HeaderLine(h)) && |HeaderLine(h)| > 1
  {
  }

  /** ... and every other line is stored: the name without the white space behind it, the value without
      that before it. */
  lemma {:induction false} ReadHeader(r: Request, h: Header, rest: string)
    requires r.status.ParsingHeaders? && h.Valid()
    ensures Loop(r, HeaderLine(h) + "\n" + rest, false)
         == Loop(r.(headers := r.headers[h.key := h.value], bytes := r.bytes + |HeaderLine(h)| + 1), rest, false)
  {
    hide Loop, Piece, TrimRight, TrimLeft, HeaderLine, FindFrom;
    SplitLine(h);
    LineHasNoNewline(h);
    assert "\n" == ['\n'];
    HeaderPiece(r, HeaderLine(h), h.Content(), rest);
    ReadPiece(r, HeaderLine(h), rest, false, r.(headers := r.headers[h.key := h.value]));
  }

  lemma {:induction false} ReadHeaders(r: Request, headers: seq<Header>, last: string, rest: string)
    requires r.status.ParsingHeaders? && forall i :: 0 <= i < |headers| ==> headers[i].Valid()
    requires |last| <= 1 && WithoutBreak(last)
    ensures var lines := HeaderLines(headers, last);
            Loop(r, lines + rest, false)
            == Outcome(r.(status := Good, headers := Collect(headers, r.headers), bytes := r.bytes + |lines|), rest)
    decreases |headers|
  {
    hide Loop, HeaderLine;
    if headers == [] {
      ReadEnd(r, last, rest);
    } else {
      var h, more := headers[0], HeaderLines(headers[1..], last);
      assert HeaderLines(headers, last) + rest == HeaderLine(h) + "\n" + (more + rest);
      ReadHeader(r, h, more + rest);
      ReadHeaders(r.(headers := r.headers[h.key := h.value], bytes := r.bytes + |HeaderLine(h)| + 1),
                  headers[1..], last, rest);
    }
  }

  // ---------- The whole request ----------

  /** Every method, every path and query (of bytes other than NUL and `?`) in every spelling, both
      versions, every list of well-formed headers with any white space around their colons, lines
      with or without carriage returns: the written request is read back with exactly these
      fields, every byte of it is used, and none behind it. */
  lemma {:induction false} RoundTrip(m: Message, rest: string)
    requires m.Valid()
    ensures Loop(Cleared(), Write(m) + rest, true)
         == Outcome(Request(Good, |Write(m)|, m.verb, Text(m.target.path), m.target.Query(), 1, m.minor,
                            Collect(m.headers, map[])), rest)
  {
    hide Loop, TargetText, HeaderLines, VersionLine, NameOf;
    var t, tail := m.target, Tail(m) + rest;
    var lines := VersionLine(m.minor, m.cr) + "\n" + tail;
    var uri := TargetText(t) + " " + lines;
    assert Write(m) + rest == NameOf(m.verb) + " " + uri;
    ReadMethod(m.verb, uri);
    var r := Cleared().(status := ParsingURI, verb := m.verb, bytes := |NameOf(m.verb)| + 1);
    ReadTarget(r, t, lines);
    var r2 := r.(status := ParsingVersion, uri := Text(t.path), query := t.Query(),
                 bytes := r.bytes + |TargetText(t)| + 1);
    ReadVersion(r2, m.minor, m.cr, tail);
    var r3 := r2.(status := ParsingHeaders, major := 1, minor := m.minor,
                  bytes := r2.bytes + |VersionLine(m.minor, m.cr)| + 1);
    ReadHeaders(r3, m.headers, m.last, rest);
  }

  /** And so it is in whatever pieces it arrives, since nothing written is fragile. */
  lemma {:induction false} RoundTripInPieces(m: Message, chunks: seq<string>)
    requires m.Valid() && Concat(chunks) == Write(m)
    ensures Feed(Cleared(), "", chunks)
         == Request(Good, |Write(m)|, m.verb, Text(m.target.path), m.target.Query(), 1, m.minor, Collect(m.headers, map[]))
  {
    hide Write, Loop;
    RoundTrip(m, "");
    assert Write(m) + "" == Write(m);
    WrittenIsNotFragile(m);
    ChunkingIndependence(Concat(chunks));
  }

  lemma {:induction false} WrittenIsNotFragile(m: Message)
    requires m.Valid()
    ensures !Fragile(Write(m))
  {
    hide Spell, HeaderLines, Fragile, EndsInPercent, FragileVersion, VersionLine;
    var marks := m.target.Marks();
    MarksWritable(m.target);
    SpellHasNoSpace(marks);
    DecodeSpell("", marks, "", |Spell(marks)|, Decoded("", -1));
    assert "" + Spell(marks) == Spell(marks);
    VersionNotFragile(m);
    NotFragileWhen(NameOf(m.verb), TargetText(m.target), VersionLine(m.minor, m.cr) + "\n" + Tail(m));
  }

  lemma {:induction false} NotFragileWhen(name: string, uri: string, lines: string)
    requires forall i :: 0 <= i < |name| ==> name[i] != ' '
    requires forall i :: 0 <= i < |uri| ==> uri[i] != ' '
    requires !EndsInPercent(uri, 0) && !FragileVersion(lines)
    ensures !Fragile(name + " " + (uri + " " + lines))
  {
    hide EndsInPercent, FindFrom, FragileVersion;
    var rest := uri + " " + lines;
    var input := name + " " + rest;
    FindIs(input, ' ', 0, |name|);
    FindIs(rest, ' ', 0, |uri|);
    assert input[|name| + 1..] == rest;
    assert rest[..|uri|] == uri && rest[|uri| + 1..] == lines;
  }

  lemma {:induction false} VersionNotFragile(m: Message)
    requires m.Valid()
    ensures !FragileVersion(VersionLine(m.minor, m.cr) + "\n" + Tail(m))
  {
    hide FindFrom, FragileLines, HeaderLines;
    var line := VersionLine(m.minor, m.cr);
    var rest := line + "\n" + Tail(m);
    FindIs(rest, '\n', 0, |line|);
    assert rest[|line| + 1..] == Tail(m);
    LinesNotFragile(m.headers, m.last);
  }

  lemma {:induction false} LinesNotFragile(headers: seq<Header>, last: string)
    requires (forall i :: 0 <= i < |headers| ==> headers[i].Valid()) && |last| <= 1 && WithoutBreak(last)
    ensures !FragileLines(HeaderLines(headers, last))
    decreases |headers|
  {
    hide FindFrom, Line, TrimLeft, TrimRight, HeaderLine;
    if headers == [] {
      FindIs(last + "\n", '\n', 0, |last|);
    } else {
      var h, more := headers[0], HeaderLines(headers[1..], last);
      var rest, n := HeaderLines(headers, last), |HeaderLine(h)|;
      assert rest == HeaderLine(h) + "\n" + more;
      LineHasNoNewline(h);
      FindIs(rest, '\n', 0, n);
      assert rest[..n] == HeaderLine(h) && rest[n + 1..] == more;
      SplitLine(h);
      LineIs(HeaderLine(h), h.Content());
      LinesNotFragile(headers[1..], last);
    }
  }
}
