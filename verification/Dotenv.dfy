/** The line parser for `.env` text: quoting, escapes, comments, and the printer it
    inverts. Text is a sequence of Unicode characters; the decoding of bytes is an
    argument, absent when the bytes are not UTF-8. */
module Dotenv {
  import opened Common

  datatype ParseError = InvalidUtf8 | MissingKey(line: nat) | InvalidName(name: string, line: nat)

  datatype Entry = Entry(key: string, value: string, line: nat)

  // ----- characters, trimming, lines

  const BOM: char := '\U{FEFF}'

  /** The Unicode White_Space property. */
  predicate IsSpace(c: char) {
    || '\U{0009}' <= c <= '\U{000D}' || c == ' ' || c == '\U{0085}' || c == '\U{00A0}' || c == '\U{1680}'
    || '\U{2000}' <= c <= '\U{200A}' || c == '\U{2028}' || c == '\U{2029}' || c == '\U{202F}' || c == '\U{205F}'
    || c == '\U{3000}'
  }

  predicate IsKeyChar(c: char) {
    'a' <= c <= 'z' || 'A' <= c <= 'Z' || '0' <= c <= '9' || c == '_'
  }

  predicate IsKey(s: string) {
    s != "" && forall i :: 0 <= i < |s| ==> IsKeyChar(s[i])
  }

  function TrimStart(s: string): string {
    if s != "" && IsSpace(s[0]) then TrimStart(s[1..]) else s
  }

  function TrimEnd(s: string): string {
    if s != "" && IsSpace(s[|s| - 1]) then TrimEnd(s[..|s| - 1]) else s
  }

  function Trim(s: string): string {
    TrimEnd(TrimStart(s))
  }

  /** The position of the first c, or the length. */
  function Find(s: string, c: char): (i: nat)
    ensures i <= |s|
    ensures i < |s| ==> s[i] == c
    ensures forall j :: 0 <= j < i ==> s[j] != c
  {
    if s == "" || s[0] == c then 0 else 1 + Find(s[1..], c)
  }

  /** The position of the first a followed by b, or the length. */
  function FindPair(s: string, a: char, b: char): (i: nat)
    ensures i <= |s|
    ensures i < |s| ==> i + 1 < |s| && s[i] == a && s[i + 1] == b
  {
    if |s| < 2 then |s|
    else if s[0] == a && s[1] == b then 0
    else 1 + FindPair(s[1..], a, b)
  }

  function StripCr(s: string): string {
    if s != "" && s[|s| - 1] == '\r' then s[..|s| - 1] else s
  }

  /** Lines end at LF or CRLF; a last line without LF keeps a final CR, and no empty line follows the last LF. */
  function Lines(text: string): seq<string> {
    var i := Find(text, '\n');
    if text == "" then []
    else if i == |text| then [text]
    else [StripCr(text[..i])] + Lines(text[i + 1..])
  }

  // ----- values

  function Unescaped(c: char): string {
    match c
    case 'n' => "\n"
    case 'r' => "\r"
    case 't' => "\t"
    case '\\' => "\\"
    case '"' => "\""
    case '\'' => "'"
    case '$' => "$"
    case other => ['\\', other]
  }

  /** Escapes resolved left to right; an unknown escape and a final backslash stay as written. */
  function Unescape(s: string): string {
    if s == "" then ""
    else if s[0] != '\\' then [s[0]] + Unescape(s[1..])
    else if |s| == 1 then "\\"
    else Unescaped(s[1]) + Unescape(s[2..])
  }

  predicate Quoted(s: string, q: char) {
    |s| >= 2 && s[0] == q && s[|s| - 1] == q
  }

  function ParseValue(raw: string): string {
    var s := Trim(raw);
    if Quoted(s, '"') then Unescape(s[1..|s| - 1])
    else if Quoted(s, '\'') then s[1..|s| - 1]
    else if FindPair(s, ' ', '#') < |s| then TrimEnd(s[..FindPair(s, ' ', '#')])
    else if FindPair(s, '\t', '#') < |s| then TrimEnd(s[..FindPair(s, '\t', '#')])
    else s
  }

  // ----- lines and files

  datatype LineResult = Skip | Assignment(key: string, value: string) | NoKey | BadKey(name: string)

  const EXPORT := "export "

  function StripExport(line: string): string {
    if EXPORT <= line then TrimStart(line[|EXPORT|..]) else line
  }

  function ParseLine(raw: string): LineResult {
    var line := Trim(raw);
    if line == "" || line[0] == '#' then Skip
    else
      var body := StripExport(line);
      var i := Find(body, '=');
      if i == |body| then Skip
      else
        var key := Trim(body[..i]);
        if key == "" then NoKey
        else if !IsKey(key) then BadKey(key)
        else Assignment(key, ParseValue(Trim(body[i + 1..])))
  }

  /** The assignments of the first n lines, or the first error among them. */
  function ParseLines(lines: seq<string>, n: nat): Result<seq<Entry>, ParseError>
    requires n <= |lines|
  {
    if n == 0 then Ok([])
    else
      var before := ParseLines(lines, n - 1);
      if before.Err? then before
      else
        match ParseLine(lines[n - 1])
        case Skip => before
        case NoKey => Err(MissingKey(n))
        case BadKey(name) => Err(InvalidName(name, n))
        case Assignment(key, value) => Ok(before.value + [Entry(key, value, n)])
  }

  function StripBom(text: string): string {
    if text != "" && text[0] == BOM then text[1..] else text
  }

  function Parse(decoded: Option<string>): Result<seq<Entry>, ParseError> {
    if decoded.None? then Err(InvalidUtf8)
    else ParseLines(Lines(StripBom(decoded.value)), |Lines(StripBom(decoded.value))|)
  }

  // ----- the code

  method UnescapeDoubleQuoted(s: string) returns (out: string)
    ensures out == Unescape(s)
  {
    hide Unescaped;
    out := "";
    var i := 0;
    assert s[0..] == s;
    while i < |s|
      invariant i <= |s| && out + Unescape(s[i..]) == Unescape(s)
    {
      var c := s[i];
      assert s[i..][1..] == s[i + 1..];
      i := i + 1;
      if c == '\\' {
        if i < |s| {
          var next := s[i];
          assert s[i - 1..][2..] == s[i + 1..];
          i := i + 1;
          out := out + Unescaped(next);
        } else {
          out := out + "\\";
        }
      } else {
        out := out + [c];
      }
    }
  }

  method ParseDotenvWithLines(decoded: Option<string>) returns (r: Result<seq<Entry>, ParseError>)
    ensures r == Parse(decoded)
  {
    if decoded.None? {
      return Err(InvalidUtf8);
    }
    var lines := Lines(StripBom(decoded.value));
    var result: seq<Entry> := [];
    assert ParseLines(lines, 0) == Ok(result);
    hide ParseLine, ParseLines, Lines, StripBom;
    for i := 0 to |lines|
      invariant ParseLines(lines, i) == Ok(result)
    {
      ParseNext(lines, i);
      match ParseLine(lines[i]) {
        case Skip =>
        case NoKey =>
          ErrorPersists(lines, i + 1, |lines|);
          return Err(MissingKey(i + 1));
        case BadKey(name) =>
          ErrorPersists(lines, i + 1, |lines|);
          return Err(InvalidName(name, i + 1));
        case Assignment(key, value) =>
          result := result + [Entry(key, value, i + 1)];
      }
    }
    return Ok(result);
  }

  lemma {:induction false} ParseNext(lines: seq<string>, i: nat)
    requires i < |lines| && ParseLines(lines, i).Ok?
    ensures ParseLines(lines, i + 1) ==
            match ParseLine(lines[i])
            case Skip => ParseLines(lines, i)
            case NoKey => Err(MissingKey(i + 1))
            case BadKey(name) => Err(InvalidName(name, i + 1))
            case Assignment(key, value) => Ok(ParseLines(lines, i).value + [Entry(key, value, i + 1)])
  {
    hide ParseLine;
  }

  lemma {:induction false} OkBefore(lines: seq<string>, n: nat)
    requires n <= |lines| && ParseLines(lines, n).Ok?
    ensures if n == 0 then ParseLines(lines, n).value == [] else ParseLines(lines, n - 1).Ok?
  {
    hide ParseLine;
  }

  lemma {:induction false} ErrorPersists(lines: seq<string>, m: nat, n: nat)
    requires m <= n <= |lines| && ParseLines(lines, m).Err?
    ensures ParseLines(lines, n) == ParseLines(lines, m)
  {
    hide ParseLine;
    if m < n {
      ErrorPersists(lines, m, n - 1);
    }
  }

  // ----- what parsing yields

  /** The entry is the assignment on the line it names. */
  predicate FromLine(lines: seq<string>, n: nat, e: Entry)
    requires n <= |lines|
  {
    1 <= e.line <= n && ParseLine(lines[e.line - 1]) == Assignment(e.key, e.value)
  }

  /** Every entry is the assignment on the line it names, and entries are in line order. */
  lemma {:induction false} EntriesComeFromLines(lines: seq<string>, n: nat)
    requires n <= |lines| && ParseLines(lines, n).Ok?
    ensures var es := ParseLines(lines, n).value;
            && (forall i :: 0 <= i < |es| ==> FromLine(lines, n, es[i]))
            && (forall i, j :: 0 <= i < j < |es| ==> es[i].line < es[j].line)
  {
    hide ParseLine, ParseLines;
    OkBefore(lines, n);
    if n > 0 {
      var es := ParseLines(lines, n).value;
      EntriesComeFromLines(lines, n - 1);
      ParseNext(lines, n - 1);
      var before := ParseLines(lines, n - 1).value;
      forall i | 0 <= i < |es| ensures FromLine(lines, n, es[i]) {
        if i < |before| {
          assert FromLine(lines, n - 1, before[i]) && es[i] == before[i];
        }
      }
      forall i, j | 0 <= i < j < |es| ensures es[i].line < es[j].line {
        assert FromLine(lines, n - 1, before[i]);
      }
    }
  }

  /** No assignment is missed. */
  lemma {:induction false} AssignmentsAreEntries(lines: seq<string>, n: nat, k: nat)
    requires k < n <= |lines| && ParseLines(lines, n).Ok? && ParseLine(lines[k]).Assignment?
    ensures Entry(ParseLine(lines[k]).key, ParseLine(lines[k]).value, k + 1) in ParseLines(lines, n).value
  {
    hide ParseLine, ParseLines;
    OkBefore(lines, n);
    if k < n - 1 {
      AssignmentsAreEntries(lines, n - 1, k);
    }
    ParseNext(lines, n - 1);
  }

  /** Parsing fails exactly when some line assigns to a missing or malformed name. */
  lemma {:induction false} FailsOnBadLine(lines: seq<string>, n: nat)
    requires n <= |lines|
    ensures ParseLines(lines, n).Err? <==>
      exists k :: 0 <= k < n && (ParseLine(lines[k]).NoKey? || ParseLine(lines[k]).BadKey?)
  {
    hide ParseLine;
    if n > 0 {
      FailsOnBadLine(lines, n - 1);
    }
  }

  /** The error is that of the first bad line, with its number. */
  lemma {:induction false} FirstError(lines: seq<string>, k: nat)
    requires k < |lines| && (ParseLine(lines[k]).NoKey? || ParseLine(lines[k]).BadKey?)
    requires forall j :: 0 <= j < k ==> !ParseLine(lines[j]).NoKey? && !ParseLine(lines[j]).BadKey?
    ensures ParseLines(lines, |lines|) ==
            match ParseLine(lines[k])
            case BadKey(name) => Err(InvalidName(name, k + 1))
            case _ => Err(MissingKey(k + 1))
  {
    hide ParseLine, ParseLines;
    FailsOnBadLine(lines, k);
    ParseNext(lines, k);
    ErrorPersists(lines, k + 1, |lines|);
  }

  /** Text that is not UTF-8 is refused. */
  lemma {:induction false} NotUtf8(text: string)
    ensures Parse(None) == Err(InvalidUtf8) && Parse(Some(text)) != Err(InvalidUtf8)
  {
    hide ParseLine;
    var lines := Lines(StripBom(text));
    NoUtf8Error(lines, |lines|);
  }

  lemma {:induction false} NoUtf8Error(lines: seq<string>, n: nat)
    requires n <= |lines|
    ensures ParseLines(lines, n) != Err(InvalidUtf8)
  {
    hide ParseLine;
    if n > 0 {
      NoUtf8Error(lines, n - 1);
    }
  }

  // ----- the printer and the round trip

  function EscapeChar(c: char): string {
    match c
    case '\\' => "\\\\"
    case '"' => "\\\""
    case '\n' => "\\n"
    case '\r' => "\\r"
    case other => [other]
  }

  function Escape(v: string): string {
    if v == "" then "" else EscapeChar(v[0]) + Escape(v[1..])
  }

  datatype Pair = Pair(key: string, value: string)

  function PrintLine(p: Pair): string {
    p.key + "=\"" + Escape(p.value) + "\""
  }

  function Print(pairs: seq<Pair>): string {
    if pairs == [] then "" else PrintLine(pairs[0]) + "\n" + Print(pairs[1..])
  }

  function Numbered(pairs: seq<Pair>, n: nat): seq<Entry>
    requires n <= |pairs|
  {
    if n == 0 then [] else Numbered(pairs, n - 1) + [Entry(pairs[n - 1].key, pairs[n - 1].value, n)]
  }

  lemma {:induction false} UnescapeEscape(v: string)
    ensures Unescape(Escape(v)) == v
  {
    if v != "" {
      UnescapeEscape(v[1..]);
      UnescapeStep(v[0], Escape(v[1..]));
    }
  }

  lemma {:induction false} UnescapeStep(c: char, rest: string)
    ensures Unescape(EscapeChar(c) + rest) == [c] + Unescape(rest)
  {
    var s := EscapeChar(c) + rest;
    if |EscapeChar(c)| == 2 {
      assert s[2..] == rest;
      assert Unescaped(EscapeChar(c)[1]) == [c];
    } else {
      assert s[1..] == rest;
    }
  }

  lemma {:induction false} EscapeHasNoNewline(v: string)
    ensures forall i :: 0 <= i < |Escape(v)| ==> Escape(v)[i] != '\n'
  {
    if v != "" {
      EscapeHasNoNewline(v[1..]);
      assert forall i :: 0 <= i < |EscapeChar(v[0])| ==> EscapeChar(v[0])[i] != '\n';
    }
  }

  lemma {:induction false} TrimTight(s: string)
    requires s != "" && !IsSpace(s[0]) && !IsSpace(s[|s| - 1])
    ensures Trim(s) == s
  {
  }

  lemma {:induction false} KeyCharFacts(c: char)
    requires IsKeyChar(c)
    ensures !IsSpace(c) && c != '=' && c != '#' && c != '\n' && c != BOM && c != ' '
  {
  }

  lemma {:induction false} KeyTrims(key: string)
    requires IsKey(key)
    ensures Trim(key) == key
  {
    hide IsSpace;
    KeyCharFacts(key[0]);
    KeyCharFacts(key[|key| - 1]);
    TrimTight(key);
  }

  lemma {:induction false} QuoteIsTight()
    ensures !IsSpace('"')
  {
  }

  lemma {:induction false} QuotedParses(v: string)
    ensures var q := "\"" + Escape(v) + "\""; Trim(q) == q && ParseValue(q) == v
  {
    hide IsSpace, Trim, Unescape;
    var q := "\"" + Escape(v) + "\"";
    QuoteIsTight();
    TrimTight(q);
    assert q[1..|q| - 1] == Escape(v);
    UnescapeEscape(v);
  }

  lemma {:induction false} FirstAt(s: string, c: char, i: nat)
    requires i < |s| && s[i] == c && forall j :: 0 <= j < i ==> s[j] != c
    ensures Find(s, c) == i
  {
    hide Find;
    var k := Find(s, c);
  }

  lemma {:induction false} NotExported(p: Pair)
    requires IsKey(p.key)
    ensures !(EXPORT <= PrintLine(p))
  {
    hide IsKeyChar;
    var line, n := PrintLine(p), |p.key|;
    assert line[n] == '=';
    if EXPORT <= line && n > 6 {
      assert line[6] == p.key[6];
      KeyCharFacts(p.key[6]);
    }
  }

  /** A printed pair parses to itself. */
  lemma {:induction false} PrintedLineParses(p: Pair)
    requires IsKey(p.key)
    ensures ParseLine(PrintLine(p)) == Assignment(p.key, p.value)
  {
    hide IsSpace, IsKeyChar, Trim, ParseValue, Find, Escape;
    var line, n := PrintLine(p), |p.key|;
    KeyCharFacts(p.key[0]);
    QuoteIsTight();
    TrimTight(line);
    NotExported(p);
    forall j | 0 <= j < n ensures line[j] != '=' {
      KeyCharFacts(p.key[j]);
    }
    FirstAt(line, '=', n);
    assert line[..n] == p.key;
    KeyTrims(p.key);
    var q := "\"" + Escape(p.value) + "\"";
    assert line[n + 1..] == q;
    QuotedParses(p.value);
  }

  lemma {:induction false} LinesCons(line: string, rest: string)
    requires line != "" && line[|line| - 1] != '\r' && forall j :: 0 <= j < |line| ==> line[j] != '\n'
    ensures Lines(line + "\n" + rest) == [line] + Lines(rest)
  {
    hide Find;
    var text := line + "\n" + rest;
    FirstAt(text, '\n', |line|);
    assert text[..|line|] == line && text[|line| + 1..] == rest;
  }

  lemma {:induction false} PrintedLines(pairs: seq<Pair>)
    requires forall i :: 0 <= i < |pairs| ==> IsKey(pairs[i].key)
    ensures |Lines(Print(pairs))| == |pairs|
    ensures forall i :: 0 <= i < |pairs| ==> Lines(Print(pairs))[i] == PrintLine(pairs[i])
  {
    if pairs == [] {
      return;
    }
    hide IsKey, Lines, PrintLine;
    OneLine(pairs[0]);
    LinesCons(PrintLine(pairs[0]), Print(pairs[1..]));
    PrintedLines(pairs[1..]);
  }

  lemma {:induction false} OneLine(p: Pair)
    requires IsKey(p.key)
    ensures PrintLine(p) != "" && PrintLine(p)[|PrintLine(p)| - 1] == '"'
    ensures forall j :: 0 <= j < |PrintLine(p)| ==> PrintLine(p)[j] != '\n'
  {
    hide IsKeyChar, Escape;
    forall j | 0 <= j < |p.key| ensures p.key[j] != '\n' {
      KeyCharFacts(p.key[j]);
    }
    EscapeHasNoNewline(p.value);
  }

  lemma {:induction false} PrintedLinesParse(pairs: seq<Pair>, lines: seq<string>, n: nat)
    requires forall i :: 0 <= i < |pairs| ==> IsKey(pairs[i].key)
    requires |lines| == |pairs| && n <= |pairs| && forall i :: 0 <= i < |pairs| ==> lines[i] == PrintLine(pairs[i])
    ensures ParseLines(lines, n) == Ok(Numbered(pairs, n))
  {
    hide ParseLine, PrintLine, IsKey;
    if n > 0 {
      PrintedLinesParse(pairs, lines, n - 1);
      PrintedLineParses(pairs[n - 1]);
    }
  }

  lemma {:induction false} NoBom(pairs: seq<Pair>)
    requires forall i :: 0 <= i < |pairs| ==> IsKey(pairs[i].key)
    ensures StripBom(Print(pairs)) == Print(pairs)
  {
    if pairs != [] {
      assert Print(pairs)[0] == pairs[0].key[0];
      KeyCharFacts(pairs[0].key[0]);
    }
  }

  /** Printing pairs with valid keys and any values, then parsing, gives the pairs back in order, numbered by line. */
  lemma {:induction false} RoundTrip(pairs: seq<Pair>)
    requires forall i :: 0 <= i < |pairs| ==> IsKey(pairs[i].key)
    ensures Parse(Some(Print(pairs))) == Ok(Numbered(pairs, |pairs|))
  {
    hide Print, ParseLines, Lines, StripBom, IsKey, Numbered, PrintLine;
    NoBom(pairs);
    PrintedLines(pairs);
    PrintedLinesParse(pairs, Lines(Print(pairs)), |pairs|);
  }

  function PairsOf(es: seq<Entry>): (ps: seq<Pair>)
    ensures |ps| == |es|
    ensures forall i :: 0 <= i < |es| ==> ps[i] == Pair(es[i].key, es[i].value)
  {
    seq(|es|, i requires 0 <= i < |es| => Pair(es[i].key, es[i].value))
  }

  lemma {:induction false} ParsedKeyIsKey(line: string)
    requires ParseLine(line).Assignment?
    ensures IsKey(ParseLine(line).key)
  {
  }

  lemma {:induction false} NumberedPairs(pairs: seq<Pair>, n: nat)
    requires n <= |pairs|
    ensures |Numbered(pairs, n)| == n && PairsOf(Numbered(pairs, n)) == pairs[..n]
  {
    if n > 0 {
      NumberedPairs(pairs, n - 1);
    }
  }

  /** Any file that parses can be rewritten in printed form without changing what it says. */
  lemma {:induction false} PrintedFormIsEquivalent(text: string)
    requires Parse(Some(text)).Ok?
    ensures var pairs := PairsOf(Parse(Some(text)).value);
            Parse(Some(Print(pairs))).Ok? && PairsOf(Parse(Some(Print(pairs))).value) == pairs
  {
    hide ParseLine, ParseLines, Print, Lines, IsKey, Numbered;
    var lines := Lines(StripBom(text));
    var es := Parse(Some(text)).value;
    EntriesComeFromLines(lines, |lines|);
    var pairs := PairsOf(es);
    forall i | 0 <= i < |pairs| ensures IsKey(pairs[i].key) {
      assert FromLine(lines, |lines|, es[i]);
      ParsedKeyIsKey(lines[es[i].line - 1]);
    }
    RoundTrip(pairs);
    NumberedPairs(pairs, |pairs|);
    assert pairs[..|pairs|] == pairs;
  }
}
