/** What the dotenv parser makes of each form a line can take: blanks and comments,
    `export`, unquoted and quoted values, inline comments, escapes, line ends. */
module DotenvGrammar {
  import opened Common
  import opened Dotenv

  // ----- characters

  lemma {:induction false} UpperCase(c: char)
    ensures 'A' <= c <= 'Z' <==> c in "ABCDEFGHIJKLMNOPQRSTUVWXYZ"
  {
  }

  lemma {:induction false} LowerCase(c: char)
    ensures 'a' <= c <= 'z' <==> c in "abcdefghijklmnopqrstuvwxyz"
  {
  }

  lemma {:induction false} Digits(c: char)
    ensures '0' <= c <= '9' <==> c in "0123456789"
  {
  }

  /** The letters, digits and underscore of a variable's name. */
  lemma {:induction false} NameCharacters(c: char)
    ensures IsKeyChar(c)
            <==> || c in "ABCDEFGHIJKLMNOPQRSTUVWXYZ" || c in "abcdefghijklmnopqrstuvwxyz" || c in "0123456789"
                 || c == '_'
  {
    UpperCase(c);
    LowerCase(c);
    Digits(c);
  }

  /** The 25 characters with the Unicode White_Space property. */
  lemma {:induction false} SpaceCharacters(c: char)
    ensures IsSpace(c)
            <==> c in ['\U{0009}', '\U{000A}', '\U{000B}', '\U{000C}', '\U{000D}', ' ', '\U{0085}', '\U{00A0}',
                       '\U{1680}', '\U{2000}', '\U{2001}', '\U{2002}', '\U{2003}', '\U{2004}', '\U{2005}',
                       '\U{2006}', '\U{2007}', '\U{2008}', '\U{2009}', '\U{200A}', '\U{2028}', '\U{2029}',
                       '\U{202F}', '\U{205F}', '\U{3000}']
  {
  }

  // ----- trimming

  predicate AllSpace(s: string) {
    forall i :: 0 <= i < |s| ==> IsSpace(s[i])
  }

  /** No space at either end. */
  predicate Tight(s: string) {
    s != "" ==> !IsSpace(s[0]) && !IsSpace(s[|s| - 1])
  }

  lemma {:induction false} TrimStartSpaces(a: string, s: string)
    requires AllSpace(a)
    ensures TrimStart(a + s) == TrimStart(s)
  {
    hide IsSpace;
    if a == "" {
      assert a + s == s;
    } else {
      assert (a + s)[1..] == a[1..] + s;
      TrimStartSpaces(a[1..], s);
    }
  }

  lemma {:induction false} TrimEndSpaces(s: string, b: string)
    requires AllSpace(b)
    ensures TrimEnd(s + b) == TrimEnd(s)
  {
    hide IsSpace;
    if b == "" {
      assert s + b == s;
    } else {
      var front := b[..|b| - 1];
      assert (s + b)[..|s + b| - 1] == s + front;
      TrimEndSpaces(s, front);
    }
  }

  /** Trimming takes off the spaces at both ends and no more. */
  lemma {:induction false} TrimMeaning(a: string, t: string, b: string)
    requires AllSpace(a) && AllSpace(b) && Tight(t)
    ensures Trim(a + t + b) == t
  {
    hide IsSpace;
    assert a + t + b == a + (t + b);
    TrimStartSpaces(a, t + b);
    if t == "" {
      assert t + b == b + "" && "" + b == b;
      TrimStartSpaces(b, "");
    } else {
      TrimEndSpaces(t, b);
    }
  }

  lemma {:induction false} SplitStart(s: string) returns (a: string, t: string)
    ensures s == a + t && AllSpace(a) && (t != "" ==> !IsSpace(t[0]))
  {
    hide IsSpace;
    if s != "" && IsSpace(s[0]) {
      var a', t' := SplitStart(s[1..]);
      a, t := [s[0]] + a', t';
    } else {
      a, t := "", s;
    }
  }

  lemma {:induction false} SplitEnd(s: string) returns (t: string, b: string)
    ensures s == t + b && AllSpace(b) && (t != "" ==> !IsSpace(t[|t| - 1]))
  {
    hide IsSpace;
    if s != "" && IsSpace(s[|s| - 1]) {
      var t', b' := SplitEnd(s[..|s| - 1]);
      t, b := t', b' + [s[|s| - 1]];
    } else {
      t, b := s, "";
    }
  }

  /** Every text is a tight part between spaces. */
  lemma {:induction false} SplitSpaces(s: string) returns (a: string, t: string, b: string)
    ensures s == a + t + b && AllSpace(a) && AllSpace(b) && Tight(t) && Trim(s) == t
  {
    hide IsSpace, Trim;
    var u;
    a, u := SplitStart(s);
    t, b := SplitEnd(u);
    TrimMeaning(a, t, b);
  }

  // ----- assignments

  lemma {:induction false} Apart(k: string, rest: string)
    requires IsKey(k)
    ensures var line := k + "=" + rest;
            && !IsSpace(line[0]) && line[0] != '#' && !(EXPORT <= line)
            && Find(line, '=') == |k| && line[..|k|] == k && line[|k| + 1..] == rest
  {
    hide IsKeyChar, Find, IsSpace;
    var line := k + "=" + rest;
    KeyCharFacts(k[0]);
    forall j | 0 <= j < |k| ensures line[j] != '=' {
      KeyCharFacts(k[j]);
    }
    FirstAt(line, '=', |k|);
    assert line[|k|] == '=';
    if |k| > 6 {
      assert line[6] == k[6];
      KeyCharFacts(k[6]);
    }
  }

  lemma {:induction false} ValueOfTrimmed(raw: string)
    ensures ParseValue(Trim(raw)) == ParseValue(raw)
  {
    var a, t, b := SplitSpaces(raw);
    TrimMeaning("", t, "");
    assert "" + t + "" == t;
    hide Trim;
  }

  lemma {:induction false} EqualsTight()
    ensures !IsSpace('=')
  {
  }

  /** The trimmed line of an assignment keeps its name and its value. */
  lemma {:induction false} TrimmedAssignment(k: string, raw: string) returns (rest: string)
    requires Tight(k)
    ensures Trim(k + "=" + raw) == k + "=" + rest && Trim(rest) == Trim(raw)
  {
    hide IsSpace, Trim;
    var a, t, b := SplitSpaces(raw);
    EqualsTight();
    var line := k + "=" + raw;
    assert line[0] == if k == "" then '=' else k[0];
    if t == "" {
      rest := "";
      assert AllSpace(raw) && "" + (k + "=") + raw == line;
      TrimMeaning("", k + "=", raw);
      assert k + "=" + rest == k + "=";
      assert "" + "" + "" == "";
      TrimMeaning("", "", "");
    } else {
      rest := a + t;
      var core := k + "=" + rest;
      assert "" + core + b == line;
      assert core[|core| - 1] == t[|t| - 1];
      TrimMeaning("", core, b);
      assert a + t + "" == rest;
      TrimMeaning(a, t, "");
    }
  }

  lemma {:induction false} KeyTight(k: string)
    requires IsKey(k)
    ensures Tight(k)
  {
    hide IsSpace;
    KeyCharFacts(k[0]);
    KeyCharFacts(k[|k| - 1]);
  }

  /** A valid name, an equals sign and anything assign the value of that anything. */
  lemma {:induction false} AssignmentLine(k: string, raw: string)
    requires IsKey(k)
    ensures ParseLine(k + "=" + raw) == Assignment(k, ParseValue(raw))
  {
    hide IsSpace, Trim, IsKeyChar, ParseValue, Find;
    KeyTight(k);
    var rest := TrimmedAssignment(k, raw);
    Apart(k, rest);
    KeyTrims(k);
    ValueOfTrimmed(raw);
  }

  /** Spaces before a line change nothing. */
  lemma {:induction false} IndentIgnored(a: string, line: string)
    requires AllSpace(a)
    ensures ParseLine(a + line) == ParseLine(line)
  {
    hide Trim;
    TrimAfterSpaces(a, line);
  }

  /** Nor does `export` with any spaces after it. */
  lemma {:induction false} ExportIgnored(w: string, k: string, raw: string)
    requires IsKey(k) && AllSpace(w)
    ensures ParseLine("export " + w + (k + "=" + raw)) == ParseLine(k + "=" + raw)
  {
    hide IsSpace, Trim, IsKeyChar, ParseValue, Find;
    KeyTight(k);
    var rest := TrimmedAssignment(k, raw);
    var plain := k + "=" + rest;
    TrimExported(w, k, raw, rest);
    Apart(k, rest);
    StripsExport(w, plain);
  }

  lemma {:induction false} StripsExport(w: string, plain: string)
    requires AllSpace(w) && plain != "" && !IsSpace(plain[0]) && !(EXPORT <= plain)
    ensures StripExport("export " + w + plain) == plain == StripExport(plain)
    ensures ("export " + w + plain)[0] == 'e'
  {
    hide IsSpace;
    var line := "export " + w + plain;
    assert line[|EXPORT|..] == w + plain && line[..|EXPORT|] == EXPORT;
    TrimStartSpaces(w, plain);
  }

  lemma {:induction false} TrimAfterSpaces(a: string, s: string)
    requires AllSpace(a)
    ensures Trim(a + s) == Trim(s)
  {
    TrimStartSpaces(a, s);
  }

  lemma {:induction false} TrimExported(w: string, k: string, raw: string, rest: string)
    requires IsKey(k) && AllSpace(w) && Trim(k + "=" + raw) == k + "=" + rest
    ensures Trim("export " + w + (k + "=" + raw)) == "export " + w + (k + "=" + rest)
  {
    hide IsSpace, Trim, IsKeyChar;
    var a, t, b := SplitSpaces(k + "=" + raw);
    KeyCharFacts(k[0]);
    StartsTight(k + "=" + raw, a, t, b);
    var core := "export " + w + t;
    assert "export " + w + (k + "=" + raw) == "" + core + b;
    assert core[|core| - 1] == t[|t| - 1];
    ExportTight();
    TrimMeaning("", core, b);
  }

  lemma {:induction false} StartsTight(s: string, a: string, t: string, b: string)
    requires s == a + t + b && AllSpace(a) && s != "" && !IsSpace(s[0])
    ensures a == ""
  {
    hide IsSpace;
  }

  lemma {:induction false} ExportTight()
    ensures !IsSpace('e')
  {
  }

  // ----- unquoted values and their comments

  predicate NoPair(s: string, a: char, b: char) {
    forall i :: 0 <= i < |s| - 1 ==> !(s[i] == a && s[i + 1] == b)
  }

  lemma {:induction false} PairAbsent(s: string, a: char, b: char)
    requires NoPair(s, a, b)
    ensures FindPair(s, a, b) == |s|
  {
  }

  lemma {:induction false} PairAt(s: string, a: char, b: char, i: nat)
    requires i + 1 < |s| && s[i] == a && s[i + 1] == b && NoPair(s[..i + 1], a, b)
    ensures FindPair(s, a, b) == i
  {
    if i > 0 {
      var t := s[1..];
      assert t[..i] == s[..i + 1][1..];
      assert NoPair(t[..i], a, b) by {
        forall j | 0 <= j < |t[..i]| - 1 ensures !(t[..i][j] == a && t[..i][j + 1] == b) {
          assert t[..i][j] == s[..i + 1][j + 1] && t[..i][j + 1] == s[..i + 1][j + 2];
        }
      }
      PairAt(t, a, b, i - 1);
      assert s[..i + 1][0] == s[0] && s[..i + 1][1] == s[1];
    }
  }

  predicate Unquoted(s: string) {
    !Quoted(s, '"') && !Quoted(s, '\'')
  }

  /** A tight value without quotes and comment marks stands for itself. */
  lemma {:induction false} PlainValue(v: string)
    requires Tight(v) && Unquoted(v) && NoPair(v, ' ', '#') && NoPair(v, '\t', '#')
    ensures ParseValue(v) == v
  {
    assert "" + v + "" == v;
    TrimMeaning("", v, "");
    hide Trim, IsSpace;
    PairAbsent(v, ' ', '#');
    PairAbsent(v, '\t', '#');
  }

  lemma {:induction false} TightPrefix(v: string)
    requires Tight(v)
    ensures TrimEnd(v) == v
  {
  }

  lemma {:induction false} HashTight()
    ensures !IsSpace('#') && IsSpace(' ') && IsSpace('\t')
  {
  }

  /** The trimmed text of a value and its comment. */
  lemma {:induction false} TrimmedComment(v: string, sep: char, c: string) returns (c': string)
    requires Tight(v) && v != ""
    ensures Trim(v + [sep, '#'] + c) == v + [sep, '#'] + c' && c' <= c
  {
    hide IsSpace, Trim;
    HashTight();
    var b;
    c', b := SplitEnd(c);
    var core := v + [sep, '#'] + c';
    assert core[|core| - 1] == if c' == "" then '#' else c'[|c'| - 1];
    assert "" + core + b == v + [sep, '#'] + c;
    TrimMeaning("", core, b);
  }

  lemma {:induction false} PrefixPairs(v: string, sep: char, a: char)
    requires NoPair(v, a, '#') && Tight(v) && v != "" && IsSpace(a)
    ensures NoPair(v + [sep], a, '#')
  {
    hide IsSpace;
    HashTight();
    var s := v + [sep];
    forall i | 0 <= i < |s| - 1 ensures !(s[i] == a && s[i + 1] == '#') {
      if i == |v| - 1 {
        assert s[i] == v[|v| - 1];
      } else {
        assert s[i] == v[i] && s[i + 1] == v[i + 1];
      }
    }
  }

  /** A comment after a space is left out of an unquoted value, whatever it says. */
  lemma {:induction false} SpaceComment(v: string, c: string)
    requires Tight(v) && v != "" && NoPair(v, ' ', '#') && Unquoted(Trim(v + " #" + c))
    ensures ParseValue(v + " #" + c) == v
  {
    hide Trim, IsSpace, Quoted, NoPair, Tight;
    assert v + " #" + c == v + [' ', '#'] + c;
    var c' := TrimmedComment(v, ' ', c);
    var s := v + [' ', '#'] + c';
    HashTight();
    PrefixPairs(v, ' ', ' ');
    assert s[..|v| + 1] == v + [' '] && s[..|v|] == v;
    PairAt(s, ' ', '#', |v|);
    TightPrefix(v);
  }

  /** After a tab likewise, but only when no space and hash follow: those are looked for first. */
  lemma {:induction false} TabComment(v: string, c: string)
    requires Tight(v) && v != "" && NoPair(v, '\t', '#') && NoPair(v + "\t#" + c, ' ', '#')
    requires Unquoted(Trim(v + "\t#" + c))
    ensures ParseValue(v + "\t#" + c) == v
  {
    hide Trim, IsSpace, Quoted, Tight;
    assert v + "\t#" + c == v + ['\t', '#'] + c;
    var c' := TrimmedComment(v, '\t', c);
    var s := v + ['\t', '#'] + c';
    assert NoPair(s, ' ', '#') by {
      var full := v + "\t#" + c;
      forall i | 0 <= i < |s| - 1 ensures !(s[i] == ' ' && s[i + 1] == '#') {
        assert s[i] == full[i] && s[i + 1] == full[i + 1];
      }
    }
    hide NoPair;
    PairAbsent(s, ' ', '#');
    HashTight();
    PrefixPairs(v, '\t', '\t');
    assert s[..|v| + 1] == v + ['\t'] && s[..|v|] == v;
    PairAt(s, '\t', '#', |v|);
    TightPrefix(v);
  }

  /** An empty value keeps its comment: the space before the hash is trimmed first, so the comment is the value. */
  lemma {:induction false} EmptyValueKeepsComment(a: string, c: string)
    requires AllSpace(a) && Tight("#" + c) && Unquoted("#" + c)
    requires NoPair("#" + c, ' ', '#') && NoPair("#" + c, '\t', '#')
    ensures ParseValue(a + "#" + c) == "#" + c
  {
    hide IsSpace, Trim, ParseValue;
    assert a + "#" + c == a + ("#" + c) + "";
    TrimMeaning(a, "#" + c, "");
    ValueOfTrimmed(a + "#" + c);
    PlainValue("#" + c);
  }

  // ----- quoted values

  lemma {:induction false} ApostropheTight()
    ensures !IsSpace('\'') && !IsSpace('"')
  {
  }

  /** Between single quotes everything is verbatim. */
  lemma {:induction false} SingleQuoted(v: string)
    ensures ParseValue("'" + v + "'") == v
  {
    hide IsSpace, Trim;
    var q := "'" + v + "'";
    ApostropheTight();
    TrimTight(q);
    assert q[1..|q| - 1] == v;
  }

  /** Between double quotes escapes are resolved. */
  lemma {:induction false} DoubleQuoted(s: string)
    ensures ParseValue("\"" + s + "\"") == Unescape(s)
  {
    hide IsSpace, Trim, Unescape;
    var q := "\"" + s + "\"";
    ApostropheTight();
    TrimTight(q);
    assert q[1..|q| - 1] == s;
  }

  /** The escapes, one by one. */
  lemma {:induction false} Escapes(rest: string)
    ensures Unescape("\\n" + rest) == "\n" + Unescape(rest) && Unescape("\\r" + rest) == "\r" + Unescape(rest)
    ensures Unescape("\\t" + rest) == "\t" + Unescape(rest) && Unescape("\\\\" + rest) == "\\" + Unescape(rest)
    ensures Unescape("\\\"" + rest) == "\"" + Unescape(rest) && Unescape("\\'" + rest) == "'" + Unescape(rest)
    ensures Unescape("\\$" + rest) == "$" + Unescape(rest)
  {
    EscapePair('n', rest);
    EscapePair('r', rest);
    EscapePair('t', rest);
    EscapePair('\\', rest);
    EscapePair('"', rest);
    EscapePair('\'', rest);
    EscapePair('$', rest);
  }

  lemma {:induction false} EscapePair(c: char, rest: string)
    ensures Unescape(['\\', c] + rest) == Unescaped(c) + Unescape(rest)
  {
    assert (['\\', c] + rest)[2..] == rest;
  }

  /** An unknown escape, an ordinary character and a final backslash stay as written. */
  lemma {:induction false} KeptAsWritten(c: char, rest: string)
    ensures c !in {'n', 'r', 't', '\\', '"', '\'', '$'} ==> Unescape(['\\', c] + rest) == ['\\', c] + Unescape(rest)
    ensures c != '\\' ==> Unescape([c] + rest) == [c] + Unescape(rest)
    ensures Unescape("\\") == "\\" && Unescape("") == ""
  {
    EscapePair(c, rest);
    assert ([c] + rest)[1..] == rest;
  }

  /** A line that assigns an unquoted value, with or without a comment, and one with a value in single quotes. */
  lemma {:induction false} ValueLines(k: string, v: string, c: string)
    requires IsKey(k)
    ensures Tight(v) && Unquoted(v) && NoPair(v, ' ', '#') && NoPair(v, '\t', '#') ==>
      ParseLine(k + "=" + v) == Assignment(k, v)
    ensures Tight(v) && v != "" && NoPair(v, ' ', '#') && Unquoted(Trim(v + " #" + c)) ==>
      ParseLine(k + "=" + v + " #" + c) == Assignment(k, v)
    ensures Tight(v) && v != "" && NoPair(v, '\t', '#') && NoPair(v + "\t#" + c, ' ', '#')
            && Unquoted(Trim(v + "\t#" + c)) ==>
      ParseLine(k + "=" + v + "\t#" + c) == Assignment(k, v)
    ensures ParseLine(k + "='" + v + "'") == Assignment(k, v)
  {
    hide Trim, IsSpace, Quoted, NoPair, ParseLine, ParseValue, IsKey, Tight;
    AssignmentLine(k, v);
    assert k + "=" + v + " #" + c == k + "=" + (v + " #" + c);
    AssignmentLine(k, v + " #" + c);
    assert k + "=" + v + "\t#" + c == k + "=" + (v + "\t#" + c);
    AssignmentLine(k, v + "\t#" + c);
    assert k + "='" + v + "'" == k + "=" + ("'" + v + "'");
    AssignmentLine(k, "'" + v + "'");
    SingleQuoted(v);
    if Tight(v) && Unquoted(v) && NoPair(v, ' ', '#') && NoPair(v, '\t', '#') {
      PlainValue(v);
    }
    if Tight(v) && v != "" && NoPair(v, ' ', '#') && Unquoted(Trim(v + " #" + c)) {
      SpaceComment(v, c);
    }
    if Tight(v) && v != "" && NoPair(v, '\t', '#') && NoPair(v + "\t#" + c, ' ', '#')
       && Unquoted(Trim(v + "\t#" + c)) {
      TabComment(v, c);
    }
  }

  // ----- other lines

  /** Blank lines, comment lines and lines without an equals sign assign nothing. */
  lemma {:induction false} SkippedLines(a: string, s: string)
    requires AllSpace(a)
    ensures ParseLine(a) == Skip && ParseLine(a + "#" + s) == Skip
    ensures '=' !in s ==> ParseLine(s) == Skip
  {
    hide IsSpace;
    assert a + "" + "" == a;
    TrimMeaning(a, "", "");
    HashTight();
    var c', b := SplitEnd(s);
    var core := "#" + c';
    assert core[|core| - 1] == if c' == "" then '#' else c'[|c'| - 1];
    assert a + core + b == a + "#" + s;
    TrimMeaning(a, core, b);
    if '=' !in s {
      NoEquals(s);
    }
  }

  lemma {:induction false} NoEquals(s: string)
    requires '=' !in s
    ensures ParseLine(s) == Skip
  {
    hide IsSpace, Trim, Find, IsKey;
    var a, t, b := SplitSpaces(s);
    forall i | 0 <= i < |t| ensures t[i] != '=' {
      assert s[|a| + i] == t[i];
    }
    if t != "" && t[0] != '#' {
      var body := StripExport(t);
      Suffix(if EXPORT <= t then t[|EXPORT|..] else t);
      assert forall i :: 0 <= i < |body| ==> body[i] in t;
      assert Find(body, '=') == |body|;
    }
  }

  lemma {:induction false} Suffix(s: string)
    ensures forall i :: 0 <= i < |TrimStart(s)| ==> TrimStart(s)[i] in s
  {
    hide IsSpace;
    if s != "" && IsSpace(s[0]) {
      Suffix(s[1..]);
    }
  }

  /** A line that starts with an equals sign has no name; a name with a character outside letters, digits and
      underscores is refused as it stands. */
  lemma {:induction false} BadNames(name: string, raw: string)
    requires Tight(name) && '=' !in name && !IsKey(name) && (name == "" || name[0] != '#') && !(EXPORT <= name + "=")
    ensures ParseLine(name + "=" + raw) == if name == "" then NoKey else BadKey(name)
  {
    hide IsSpace, Trim, Find, IsKey, ParseValue;
    var rest := TrimmedAssignment(name, raw);
    var core := name + "=" + rest;
    assert core[0] == if name == "" then '=' else name[0];
    forall j | 0 <= j < |name| ensures core[j] != '=' {
      assert core[j] == name[j];
    }
    FirstAt(core, '=', |name|);
    assert core[..|name|] == name;
    assert "" + name + "" == name;
    TrimMeaning("", name, "");
    NotExport(name, rest);
  }

  lemma {:induction false} NotExport(name: string, rest: string)
    requires !(EXPORT <= name + "=")
    ensures !(EXPORT <= name + "=" + rest)
  {
    var core := name + "=" + rest;
    assert core[|name|] == '=';
    assert |name| + 1 >= |EXPORT| ==> (name + "=")[..|EXPORT|] == core[..|EXPORT|];
  }

  // ----- files

  /** One byte-order mark in front changes nothing. */
  lemma {:induction false} BomIgnored(text: string)
    requires text == "" || text[0] != BOM
    ensures Parse(Some([BOM] + text)) == Parse(Some(text))
  {
    assert StripBom([BOM] + text) == text;
    hide Lines, ParseLines;
  }

  /** Lines end at CRLF or at LF. */
  lemma {:induction false} CrlfEnds(line: string, rest: string)
    requires '\n' !in line
    ensures Lines(line + "\r\n" + rest) == [line] + Lines(rest)
  {
    hide Find;
    var text := line + "\r\n" + rest;
    FirstAt(text, '\n', |line| + 1);
    assert text[..|line| + 1] == line + "\r" && (line + "\r")[..|line|] == line;
    assert text[|line| + 2..] == rest;
  }

  lemma {:induction false} LfEnds(line: string, rest: string)
    requires '\n' !in line && (line == "" || line[|line| - 1] != '\r')
    ensures Lines(line + "\n" + rest) == [line] + Lines(rest)
  {
    hide Find;
    var text := line + "\n" + rest;
    FirstAt(text, '\n', |line|);
    assert text[..|line|] == line && text[|line| + 1..] == rest;
  }

  /** The last line may have no end, and nothing follows a final end. */
  lemma {:induction false} LastLine(line: string)
    requires '\n' !in line
    ensures Lines(line) == if line == "" then [] else [line]
  {
    assert Find(line, '\n') == |line|;
  }
}
