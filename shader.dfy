/**
 * The shader section parser of src/shader.rs: `parse_shader` splits a
 * text into named sections at `--` header lines, and `Shader::from_str`
 * looks up the vertex and fragment sections by name.
 *
 * `Sections` says declaratively which (name, code) pairs a list of lines
 * holds and `SectionMap` how the map keeps them; the method `ParseShader`
 * is the source's loop, proved against them.
 */
module Shader {
  import opened Wrappers

  type String = seq<char>

  // ---------------------------------------------------------------------------
  // Characters and trimming, as Rust's `char` and `str` define them
  // ---------------------------------------------------------------------------

  /** The characters with the Unicode `White_Space` property. */
  const WhiteSpace: set<char> :=
    {'\t', '\n', '\U{0B}', '\U{0C}', '\r', ' ', '\U{85}', '\U{A0}', '\U{1680}',
     '\U{2000}', '\U{2001}', '\U{2002}', '\U{2003}', '\U{2004}', '\U{2005}', '\U{2006}',
     '\U{2007}', '\U{2008}', '\U{2009}', '\U{200A}', '\U{2028}', '\U{2029}', '\U{202F}',
     '\U{205F}', '\U{3000}'}

  /** Rust's `char::is_whitespace`. */
  predicate IsWhitespace(c: char)
  {
    c in WhiteSpace
  }

  function TrimStart(s: String): (r: String)
    ensures |r| <= |s| && r == s[|s| - |r|..]
  {
    if s != [] && IsWhitespace(s[0]) then TrimStart(s[1..]) else s
  }

  function TrimEnd(s: String): (r: String)
    ensures |r| <= |s| && r == s[..|r|]
  {
    if s != [] && IsWhitespace(s[|s| - 1]) then TrimEnd(s[..|s| - 1]) else s
  }

  /** `str::trim`. */
  function Trim(s: String): String
  {
    TrimEnd(TrimStart(s))
  }

  predicate StartsWith(s: String, prefix: String)
  {
    prefix <= s
  }

  /** `trim_start_matches(['-', ' '])`. */
  function StripDashesAndSpaces(s: String): (r: String)
    ensures |r| <= |s| && r == s[|s| - |r|..]
    ensures r == [] || (r[0] != '-' && r[0] != ' ')
  {
    if s != [] && (s[0] == '-' || s[0] == ' ') then StripDashesAndSpaces(s[1..]) else s
  }

  /** Drops one trailing carriage return. */
  function StripCr(s: String): String
  {
    if s != [] && s[|s| - 1] == '\r' then s[..|s| - 1] else s
  }

  /** The index of the first newline in `s` at or after `i`, or `|s|` when there is none. */
  function NewlineFrom(s: String, i: nat): (k: nat)
    requires i <= |s|
    ensures i <= k <= |s|
    ensures k < |s| ==> s[k] == '\n'
    ensures forall j | i <= j < k :: s[j] != '\n'
    decreases |s| - i
  {
    if i == |s| || s[i] == '\n' then i else NewlineFrom(s, i + 1)
  }

  /**
   * Rust's `str::lines`: pieces split after each `'\n'`; a piece that ended
   * in `'\n'` loses it and then one `'\r'`; a final piece without `'\n'` is
   * kept as it is; an empty text has no lines.
   */
  function Lines(s: String): (ls: seq<String>)
    ensures |ls| <= |s|
    decreases |s|
  {
    if s == [] then []
    else
      var k := NewlineFrom(s, 0);
      if k == |s| then [s] else [StripCr(s[..k])] + Lines(s[k + 1..])
  }

  // ---------------------------------------------------------------------------
  // What the parser is meant to produce
  // ---------------------------------------------------------------------------

  datatype Section = Section(name: String, code: String)

  /** A line as the parser sees it: a header opening a named section, or code. */
  datatype Line = Header(name: String) | Code(text: String)

  datatype ErrorKind = NotFound

  /**
   * A header line: `--` after any leading whitespace. `HeaderTestIsTrim`
   * shows this is the test on the line trimmed at both ends.
   */
  predicate IsHeader(line: String)
    ensures IsHeader(line) ==> 2 <= |line|
  {
    if line != [] && IsWhitespace(line[0]) then IsHeader(line[1..]) else StartsWith(line, "--")
  }

  /** The section a header line opens. */
  function HeaderName(line: String): (name: String)
    ensures |name| <= |line| && name == line[|line| - |name|..]
    ensures name == [] || (name[0] != '-' && name[0] != ' ')
  {
    StripDashesAndSpaces(line)
  }

  function Classify(line: String): Line
  {
    if IsHeader(line) then Header(HeaderName(line)) else Code(line)
  }

  function Classified(ls: seq<String>): (ks: seq<Line>)
    ensures |ks| == |ls|
  {
    if ls == [] then [] else [Classify(ls[0])] + Classified(ls[1..])
  }

  lemma {:induction false} ClassifiedAt(ls: seq<String>, i: nat)
    requires i < |ls|
    ensures Classified(ls)[i] == Classify(ls[i])
  {
    var ks := Classified(ls);
    assert ks == [Classify(ls[0])] + Classified(ls[1..]);
    if i > 0 {
      ClassifiedAt(ls[1..], i - 1);
      assert ks[i] == Classified(ls[1..])[i - 1];
      assert ls[1..][i - 1] == ls[i];
    }
  }

  lemma {:induction false} ClassifiedAppend(a: seq<String>, b: seq<String>)
    ensures Classified(a + b) == Classified(a) + Classified(b)
  {
    if a == [] {
      assert a + b == b;
    } else {
      assert (a + b)[1..] == a[1..] + b;
      ClassifiedAppend(a[1..], b);
    }
  }

  /** What a code line adds to its section: nothing when empty, else itself and a newline. */
  function LineCode(line: String): String
  {
    if line == [] then [] else line + "\n"
  }

  predicate NoHeader(ks: seq<Line>)
  {
    forall i | 0 <= i < |ks| :: ks[i].Code?
  }

  /** The code of a section whose lines start at `ks`: everything up to the next header. */
  function Body(ks: seq<Line>): String
  {
    if ks == [] || ks[0].Header? then [] else LineCode(ks[0].text) + Body(ks[1..])
  }

  /** Every header of `ks`, in order, with the code that follows it. */
  function Sections(ks: seq<Line>): (ss: seq<Section>)
    ensures |ss| <= |ks|
  {
    if ks == [] then []
    else if ks[0].Header? then [Section(ks[0].name, Body(ks[1..]))] + Sections(ks[1..])
    else Sections(ks[1..])
  }

  /** Inserting the sections one after another into a map: a later section of the same name wins. */
  function SectionMap(ss: seq<Section>): map<String, String>
  {
    if ss == [] then map[] else SectionMap(ss[..|ss| - 1])[ss[|ss| - 1].name := ss[|ss| - 1].code]
  }

  /** The names of the header lines among `ls`. */
  function HeaderNames(ls: seq<String>): set<String>
  {
    set i | 0 <= i < |ls| && IsHeader(ls[i]) :: HeaderName(ls[i])
  }

  function HeaderCount(ls: seq<String>): nat
  {
    if ls == [] then 0 else (if IsHeader(ls[0]) then 1 else 0) + HeaderCount(ls[1..])
  }

  /** What `parse_shader` returns for `input`. */
  function Parsed(input: String): (m: map<String, String>)
    ensures m.Keys == HeaderNames(Lines(input))
    ensures |m| <= HeaderCount(Lines(input))
  {
    KeysAreHeaderNames(Lines(input));
    EntriesAtMostHeaders(Lines(input));
    SectionMap(Sections(Classified(Lines(input))))
  }

  // ---------------------------------------------------------------------------
  // The parser
  // ---------------------------------------------------------------------------

  /**
   * `parse_shader`: walks the lines keeping the open section's name, its
   * code so far and the map of closed sections.
   */
  method ParseShader(input: String) returns (m: map<String, String>)
    ensures m == Parsed(input)
  {
    m := ParseLines(Lines(input));
  }

  /** The loop of `parse_shader` over the lines of its input. */
  method ParseLines(lines: seq<String>) returns (m: map<String, String>)
    ensures m == SectionMap(Sections(Classified(lines)))
  {
    ghost var ks := Classified(lines);
    var section: Option<String> := None;
    var code: String := [];
    m := map[];
    ghost var last: int := -1;
    for i := 0 to |lines|
      invariant Scanned(ks, i, last, section, code, m)
    {
      var line := lines[i];
      ClassifiedAt(lines, i);
      if line == [] {
        ScanLine(ks, i, last, section, code, m);
        assert code + LineCode(line) == code;
        continue;
      }
      if IsHeader(line) {
        assert ks[i] == Header(HeaderName(line));
        ScanHeader(ks, i, last, section, code, m);
        if section.Some? {
          m := m[section.value := code];
        }
        section := Some(HeaderName(line));
        code := [];
        last := i;
      } else {
        assert ks[i] == Code(line);
        ScanLine(ks, i, last, section, code, m);
        AppendLine(code, line);
        code := code + line + "\n";
      }
    }
    ScanEnd(ks, last, section, code, m);
    if section.Some? {
      m := m[section.value := code];
    }
  }

  /**
   * `Shader::from_str`, as far as the section lookup goes: the vertex and
   * the fragment sources, or `NotFound` when either section is missing.
   */
  method FromStr(contents: String, vertexSection: String, fragmentSection: String)
    returns (r: Result<(String, String), ErrorKind>)
    ensures r.Err? <==> vertexSection !in HeaderNames(Lines(contents)) || fragmentSection !in HeaderNames(Lines(contents))
    ensures r.Err? ==> r.error == NotFound
    ensures r.Ok? ==> && vertexSection in Parsed(contents) && fragmentSection in Parsed(contents)
                      && r.value == (Parsed(contents)[vertexSection], Parsed(contents)[fragmentSection])
  {
    var parsed := ParseShader(contents);
    KeysAreHeaderNames(Lines(contents));
    if vertexSection !in parsed {
      return Err(NotFound);
    }
    if fragmentSection !in parsed {
      return Err(NotFound);
    }
    return Ok((parsed[vertexSection], parsed[fragmentSection]));
  }

  // ---------------------------------------------------------------------------
  // Lemmas the loop needs
  // ---------------------------------------------------------------------------

  /** Extending a header-free run by a code line extends its code by that line's code. */
  lemma {:induction false} BodySnoc(ks: seq<Line>, k: Line)
    requires NoHeader(ks) && k.Code?
    ensures Body(ks + [k]) == Body(ks) + LineCode(k.text)
    ensures NoHeader(ks + [k])
  {
    if ks != [] {
      assert (ks + [k])[1..] == ks[1..] + [k];
      BodySnoc(ks[1..], k);
    }
  }

  /** A section's code stops at the next header. */
  lemma {:induction false} BodyStopsAtHeader(a: seq<Line>, b: seq<Line>)
    requires b != [] && b[0].Header?
    ensures Body(a + b) == Body(a)
  {
    if a == [] {
      assert a + b == b;
    } else if a[0].Code? {
      assert (a + b)[1..] == a[1..] + b;
      BodyStopsAtHeader(a[1..], b);
    }
  }

  /** Cutting the lines just before a header cuts the section list there. */
  lemma {:induction false} SectionsSplit(a: seq<Line>, b: seq<Line>)
    requires b != [] && b[0].Header?
    ensures Sections(a + b) == Sections(a) + Sections(b)
  {
    if a == [] {
      assert a + b == b;
    } else {
      assert (a + b)[1..] == a[1..] + b;
      SectionsSplit(a[1..], b);
      if a[0].Header? {
        BodyStopsAtHeader(a[1..], b);
      }
    }
  }

  /** Lines without a header hold no section. */
  lemma {:induction false} NoSections(ks: seq<Line>)
    requires NoHeader(ks)
    ensures Sections(ks) == []
  {
    if ks != [] {
      NoSections(ks[1..]);
    }
  }

  /**
   * The loop's state after the first `i` lines: `last` is the latest header
   * among them (-1 when none); the open section is that header's, its code
   * is what followed it, and the map holds the sections closed before it.
   */
  ghost predicate Scanned(ks: seq<Line>, i: int, last: int, section: Option<String>, code: String, m: map<String, String>)
  {
    && -1 <= last < i <= |ks|
    && (last == -1 ==> section.None? && m == map[] && NoHeader(ks[..i]))
    && (last >= 0 ==> && ks[last].Header?
                      && section == Some(ks[last].name)
                      && code == Body(ks[last + 1..i])
                      && NoHeader(ks[last + 1..i])
                      && m == SectionMap(Sections(ks[..last])))
  }

  lemma AppendLine(code: String, line: String)
    requires line != []
    ensures code + line + "\n" == code + LineCode(line)
  {
    assert LineCode(line) == line + "\n";
  }

  /** A code line adds its code to the open section. */
  lemma ScanLine(ks: seq<Line>, i: int, last: int, section: Option<String>, code: String, m: map<String, String>)
    requires Scanned(ks, i, last, section, code, m) && 0 <= i < |ks| && ks[i].Code?
    ensures Scanned(ks, i + 1, last, section, code + LineCode(ks[i].text), m)
  {
    if last >= 0 {
      var body := ks[last + 1..i];
      BodySnoc(body, ks[i]);
      assert ks[last + 1..i + 1] == body + [ks[i]];
      assert code + LineCode(ks[i].text) == Body(ks[last + 1..i + 1]);
      assert NoHeader(ks[last + 1..i + 1]);
    } else {
      var seen := ks[..i];
      BodySnoc(seen, ks[i]);
      assert ks[..i + 1] == seen + [ks[i]];
      assert NoHeader(ks[..i + 1]);
    }
  }

  /** A header line closes the open section, if any, and opens its own. */
  lemma ScanHeader(ks: seq<Line>, i: int, last: int, section: Option<String>, code: String, m: map<String, String>)
    requires Scanned(ks, i, last, section, code, m) && 0 <= i < |ks| && ks[i].Header?
    ensures Scanned(ks, i + 1, i, Some(ks[i].name), [],
                    if section.Some? then m[section.value := code] else m)
  {
    ClosedSections(ks, last, i);
    assert ks[i + 1..i + 1] == [];
  }

  /** At the end of the input, closing the open section gives the whole map. */
  lemma ScanEnd(ks: seq<Line>, last: int, section: Option<String>, code: String, m: map<String, String>)
    requires Scanned(ks, |ks|, last, section, code, m)
    ensures (if section.Some? then m[section.value := code] else m) == SectionMap(Sections(ks))
  {
    ClosedSections(ks, last, |ks|);
    assert ks[..|ks|] == ks;
  }

  /**
   * At line `i`, once the section opened at `last` (if any) is closed, the
   * closed sections are exactly those of `ks[..i]`.
   */
  lemma ClosedSections(ks: seq<Line>, last: int, i: int)
    requires -1 <= last < i <= |ks|
    requires last == -1 ==> NoHeader(ks[..i])
    requires last >= 0 ==> ks[last].Header? && NoHeader(ks[last + 1..i])
    ensures last == -1 ==> Sections(ks[..i]) == []
    ensures last >= 0 ==> Sections(ks[..i])
                          == Sections(ks[..last]) + [Section(ks[last].name, Body(ks[last + 1..i]))]
  {
    if last == -1 {
      NoSections(ks[..i]);
    } else {
      var pre, from := ks[..last], ks[last..i];
      assert ks[..i] == pre + from;
      SectionsSplit(pre, from);
      assert from[1..] == ks[last + 1..i];
      NoSections(from[1..]);
    }
  }

  // ---------------------------------------------------------------------------
  // Properties of the result
  // ---------------------------------------------------------------------------

  function Names(ss: seq<Section>): set<String>
  {
    set i | 0 <= i < |ss| :: ss[i].name
  }

  lemma NamesSnoc(ss: seq<Section>)
    requires ss != []
    ensures Names(ss) == Names(ss[..|ss| - 1]) + {ss[|ss| - 1].name}
  {
    var init := ss[..|ss| - 1];
    forall n | n in Names(ss) ensures n in Names(init) + {ss[|ss| - 1].name} {
      var i :| 0 <= i < |ss| && ss[i].name == n;
      if i < |ss| - 1 {
        assert init[i] == ss[i];
      }
    }
    forall n | n in Names(init) ensures n in Names(ss) {
      var i :| 0 <= i < |init| && init[i].name == n;
      assert ss[i] == init[i];
    }
  }

  lemma NamesCons(s: Section, rest: seq<Section>)
    ensures Names([s] + rest) == {s.name} + Names(rest)
  {
    var ss := [s] + rest;
    forall n | n in Names(ss) ensures n in {s.name} + Names(rest) {
      var i :| 0 <= i < |ss| && ss[i].name == n;
      if i == 0 {
        assert ss[0] == s;
      } else {
        assert ss[i] == rest[i - 1];
        assert rest[i - 1].name in Names(rest);
      }
    }
    forall n | n in Names(rest) ensures n in Names(ss) {
      var i :| 0 <= i < |rest| && rest[i].name == n;
      assert ss[i + 1] == rest[i];
    }
    assert ss[0].name == s.name;
  }

  /** The names of the headers among `ks`. */
  function LineNames(ks: seq<Line>): set<String>
  {
    set i | 0 <= i < |ks| && ks[i].Header? :: ks[i].name
  }

  lemma LineNamesCons(ks: seq<Line>)
    requires ks != []
    ensures LineNames(ks) == (if ks[0].Header? then {ks[0].name} else {}) + LineNames(ks[1..])
  {
    forall n | n in LineNames(ks)
      ensures n in (if ks[0].Header? then {ks[0].name} else {}) + LineNames(ks[1..])
    {
      var i :| 0 <= i < |ks| && ks[i].Header? && ks[i].name == n;
      if i > 0 {
        assert ks[1..][i - 1] == ks[i];
      }
    }
    forall n | n in LineNames(ks[1..]) ensures n in LineNames(ks) {
      var i :| 0 <= i < |ks[1..]| && ks[1..][i].Header? && ks[1..][i].name == n;
      assert ks[i + 1] == ks[1..][i];
    }
  }

  lemma HeaderNamesClassified(ls: seq<String>)
    ensures HeaderNames(ls) == LineNames(Classified(ls))
  {
    var ks := Classified(ls);
    forall n | n in HeaderNames(ls) ensures n in LineNames(ks) {
      var i :| 0 <= i < |ls| && IsHeader(ls[i]) && HeaderName(ls[i]) == n;
      ClassifiedAt(ls, i);
    }
    forall n | n in LineNames(ks) ensures n in HeaderNames(ls) {
      var i :| 0 <= i < |ks| && ks[i].Header? && ks[i].name == n;
      ClassifiedAt(ls, i);
    }
  }

  lemma {:induction false} SectionMapKeys(ss: seq<Section>)
    ensures SectionMap(ss).Keys == Names(ss)
  {
    if ss != [] {
      SectionMapKeys(ss[..|ss| - 1]);
      NamesSnoc(ss);
    }
  }

  lemma {:induction false} SectionNames(ks: seq<Line>)
    ensures Names(Sections(ks)) == LineNames(ks)
  {
    if ks != [] {
      SectionNames(ks[1..]);
      LineNamesCons(ks);
      if ks[0].Header? {
        NamesCons(Section(ks[0].name, Body(ks[1..])), Sections(ks[1..]));
      }
    }
  }

  /** The keys of the parsed map are exactly the names of the header lines. */
  lemma KeysAreHeaderNames(ls: seq<String>)
    ensures SectionMap(Sections(Classified(ls))).Keys == HeaderNames(ls)
  {
    SectionMapKeys(Sections(Classified(ls)));
    SectionNames(Classified(ls));
    HeaderNamesClassified(ls);
  }

  lemma {:induction false} SectionCount(ls: seq<String>)
    ensures |Sections(Classified(ls))| == HeaderCount(ls)
  {
    if ls != [] {
      SectionCount(ls[1..]);
      assert Classified(ls)[1..] == Classified(ls[1..]);
    }
  }

  lemma {:induction false} NamesBound(ss: seq<Section>)
    ensures |Names(ss)| <= |ss|
  {
    if ss != [] {
      var init, x := ss[..|ss| - 1], ss[|ss| - 1].name;
      NamesBound(init);
      NamesSnoc(ss);
      if x in Names(init) {
        assert Names(init) + {x} == Names(init);
      } else {
        assert |Names(init) + {x}| == |Names(init)| + 1;
      }
    }
  }

  /** The map has at most as many entries as there are header lines. */
  lemma EntriesAtMostHeaders(ls: seq<String>)
    ensures |SectionMap(Sections(Classified(ls)))| <= HeaderCount(ls)
  {
    var ss := Sections(Classified(ls));
    SectionMapKeys(ss);
    NamesBound(ss);
    SectionCount(ls);
    assert |SectionMap(ss)| == |SectionMap(ss).Keys|;
  }

  /** A repeated section name keeps the code of its last occurrence. */
  lemma {:induction false} LastOccurrenceWins(ss: seq<Section>, k: nat)
    requires k < |ss|
    requires forall j | k < j < |ss| :: ss[j].name != ss[k].name
    ensures ss[k].name in SectionMap(ss) && SectionMap(ss)[ss[k].name] == ss[k].code
  {
    var init := ss[..|ss| - 1];
    if k < |ss| - 1 {
      assert init[k] == ss[k];
      forall j | k < j < |init| ensures init[j].name != init[k].name {
        assert init[j] == ss[j];
      }
      LastOccurrenceWins(init, k);
    }
  }

  lemma {:induction false} CodeLinesIgnored(pre: seq<Line>, rest: seq<Line>)
    requires NoHeader(pre)
    ensures Sections(pre + rest) == Sections(rest)
  {
    if pre != [] {
      assert (pre + rest)[1..] == pre[1..] + rest;
      CodeLinesIgnored(pre[1..], rest);
    } else {
      assert pre + rest == rest;
    }
  }

  /** Lines before the first header belong to no section. */
  lemma PreambleIgnored(pre: seq<String>, rest: seq<String>)
    requires forall i | 0 <= i < |pre| :: !IsHeader(pre[i])
    ensures Sections(Classified(pre + rest)) == Sections(Classified(rest))
  {
    ClassifiedAppend(pre, rest);
    forall i | 0 <= i < |pre| ensures Classified(pre)[i].Code? {
      ClassifiedAt(pre, i);
    }
    CodeLinesIgnored(Classified(pre), Classified(rest));
  }

  lemma {:induction false} BlankIsNotHeader(line: String)
    requires forall i | 0 <= i < |line| :: IsWhitespace(line[i])
    ensures !IsHeader(line)
  {
    if line != [] {
      BlankIsNotHeader(line[1..]);
    }
  }

  /** A line of only whitespace is not a header: it is kept as code, newline added. */
  lemma WhitespaceLineKept(line: String)
    requires line != [] && forall i | 0 <= i < |line| :: IsWhitespace(line[i])
    ensures Classify(line) == Code(line) && LineCode(line) == line + "\n"
  {
    BlankIsNotHeader(line);
  }

  /** Trimming the end keeps every character up to the last non-whitespace one. */
  lemma {:induction false} TrimEndKeeps(s: String, k: nat)
    requires 0 < k <= |s| && !IsWhitespace(s[k - 1])
    ensures k <= |TrimEnd(s)|
  {
    if |s| > k {
      assert s[..|s| - 1][k - 1] == s[k - 1];
      TrimEndKeeps(s[..|s| - 1], k);
    }
  }

  /** The header test is `line.trim().starts_with("--")`. */
  lemma {:induction false} HeaderTestIsTrim(line: String)
    ensures IsHeader(line) <==> StartsWith(TrimStart(line), "--")
    ensures IsHeader(line) <==> StartsWith(Trim(line), "--")
  {
    if line != [] && IsWhitespace(line[0]) {
      HeaderTestIsTrim(line[1..]);
      assert TrimStart(line) == TrimStart(line[1..]);
    } else {
      var t := TrimEnd(line);
      if StartsWith(line, "--") {
        assert line[1] == '-';
        TrimEndKeeps(line, 2);
        assert t[..2] == line[..2];
      }
    }
  }

  /**
   * A header's name drops only the leading run of dashes and spaces: any
   * other leading character, and all trailing text, stay in the name.
   */
  lemma {:induction false} HeaderNameKeepsRest(dashes: String, rest: String)
    requires forall i | 0 <= i < |dashes| :: dashes[i] == '-' || dashes[i] == ' '
    requires rest == [] || (rest[0] != '-' && rest[0] != ' ')
    ensures HeaderName(dashes + rest) == rest
  {
    if dashes == [] {
      assert dashes + rest == rest;
    } else {
      assert (dashes + rest)[1..] == dashes[1..] + rest;
      HeaderNameKeepsRest(dashes[1..], rest);
    }
  }

  /** No line contains a newline. */
  lemma {:induction false} LinesHaveNoNewline(s: String)
    ensures forall i | 0 <= i < |Lines(s)| :: '\n' !in Lines(s)[i]
    decreases |s|
  {
    if s != [] {
      var k := NewlineFrom(s, 0);
      if k < |s| {
        LinesHaveNoNewline(s[k + 1..]);
        assert '\n' !in s[..k];
      } else {
        assert '\n' !in s;
      }
    }
  }

  /** Each line written with a terminating newline. */
  function JoinLines(ls: seq<String>): String
  {
    if ls == [] then [] else ls[0] + "\n" + JoinLines(ls[1..])
  }

  /** A line that holds no newline and does not end in a carriage return comes back out of `lines`. */
  lemma LinesCons(l: String, rest: String)
    requires '\n' !in l && (l == [] || l[|l| - 1] != '\r')
    ensures Lines(l + "\n" + rest) == [l] + Lines(rest)
  {
    var s := l + "\n" + rest;
    assert s[|l|] == '\n';
    forall j | 0 <= j < |l| ensures s[j] != '\n' {
      assert s[j] == l[j];
    }
    NewlineAt(s, 0, |l|);
    assert s[..|l|] == l;
    assert s[|l| + 1..] == rest;
  }

  /** `lines` undoes writing lines that hold no newline and do not end in a carriage return. */
  lemma {:induction false} LinesOfJoin(ls: seq<String>)
    requires forall i | 0 <= i < |ls| :: '\n' !in ls[i] && (ls[i] == [] || ls[i][|ls[i]| - 1] != '\r')
    ensures Lines(JoinLines(ls)) == ls
  {
    if ls != [] {
      LinesOfJoin(ls[1..]);
      LinesCons(ls[0], JoinLines(ls[1..]));
    }
  }

  /** Each line written with a terminating carriage return and newline. */
  function JoinCrlfLines(ls: seq<String>): String
  {
    if ls == [] then [] else ls[0] + "\r\n" + JoinCrlfLines(ls[1..])
  }

  /** A line that holds no newline comes back out of `lines` when it is terminated by `"\r\n"`, whatever it ends in. */
  lemma LinesCrlfCons(l: String, rest: String)
    requires '\n' !in l
    ensures Lines(l + "\r\n" + rest) == [l] + Lines(rest)
  {
    var s := l + "\r\n" + rest;
    assert s[|l| + 1] == '\n';
    forall j | 0 <= j < |l| + 1 ensures s[j] != '\n' {
      if j < |l| {
        assert s[j] == l[j];
      }
    }
    NewlineAt(s, 0, |l| + 1);
    assert s[..|l| + 1] == l + "\r";
    assert (l + "\r")[..|l|] == l;
    assert s[|l| + 2..] == rest;
  }

  /** `lines` undoes writing lines that hold no newline with `"\r\n"` terminators: the carriage returns are dropped. */
  lemma {:induction false} LinesOfCrlfJoin(ls: seq<String>)
    requires forall i | 0 <= i < |ls| :: '\n' !in ls[i]
    ensures Lines(JoinCrlfLines(ls)) == ls
  {
    if ls != [] {
      LinesOfCrlfJoin(ls[1..]);
      LinesCrlfCons(ls[0], JoinCrlfLines(ls[1..]));
    }
  }

  lemma {:induction false} NewlineAt(s: String, i: nat, k: nat)
    requires i <= k < |s| && s[k] == '\n' && forall j | i <= j < k :: s[j] != '\n'
    ensures NewlineFrom(s, i) == k
    decreases k - i
  {
    if i < k {
      NewlineAt(s, i + 1, k);
    }
  }
}
