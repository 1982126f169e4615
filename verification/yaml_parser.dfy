/** `YamlVssParser`: a VSS YAML file is a list of entries separated by delimiter lines (by default
    the empty line). An entry's first line is `<path>:`; the other lines are `key: value` attributes. */
module YamlParser {
  import opened Results
  import opened Strings
  import opened Properties

  /** The character that joins an entry's lines before attributes are searched. */
  const AttributeDelimiter: char := ';'

  /** `line.trim()` on every line read from the file. */
  function TrimAll(lines: seq<string>): (r: seq<string>)
    ensures |r| == |lines|
    ensures forall i | 0 <= i < |r| :: IsTrimmed(r[i])
    ensures forall i | 0 <= i < |lines| :: r[i] == Trim(lines[i])
  {
    seq(|lines|, i requires 0 <= i < |lines| => Trim(lines[i]))
  }

  /** The number of lines equal to `delimiter`. */
  function CountDelimiters(lines: seq<string>, delimiter: string): nat {
    if |lines| == 0 then 0
    else (if lines[0] == delimiter then 1 else 0) + CountDelimiters(lines[1..], delimiter)
  }

  /** The grouping loop of `parseNodes`: a delimiter line closes the current entry and belongs to
      none; the entry being collected when the lines run out is always kept. */
  function Groups(lines: seq<string>, delimiter: string): (r: seq<seq<string>>)
    ensures |r| >= 1
  {
    if |lines| == 0 then [[]]
    else
      var rest := Groups(lines[1..], delimiter);
      if lines[0] == delimiter then [[]] + rest
      else [[lines[0]] + rest[0]] + rest[1..]
  }

  /** The inverse of `Groups`: put a delimiter line between consecutive entries. */
  function Unsplit(groups: seq<seq<string>>, delimiter: string): seq<string>
    requires |groups| >= 1
  {
    if |groups| == 1 then groups[0] else groups[0] + [delimiter] + Unsplit(groups[1..], delimiter)
  }

  /** No entry contains a delimiter line. */
  ghost predicate DelimiterFree(groups: seq<seq<string>>, delimiter: string) {
    forall i, j | 0 <= i < |groups| && 0 <= j < |groups[i]| :: groups[i][j] != delimiter
  }

  lemma {:induction false} GroupsShape(lines: seq<string>, delimiter: string)
    ensures |Groups(lines, delimiter)| == CountDelimiters(lines, delimiter) + 1
    ensures DelimiterFree(Groups(lines, delimiter), delimiter)
    ensures Unsplit(Groups(lines, delimiter), delimiter) == lines
  {
    if |lines| > 0 {
      GroupsShape(lines[1..], delimiter);
      var rest := Groups(lines[1..], delimiter);
      if lines[0] == delimiter {
        assert Groups(lines, delimiter)[1..] == rest;
        assert lines == [lines[0]] + lines[1..];
      } else {
        var r := Groups(lines, delimiter);
        assert r[1..] == rest[1..];
        forall i, j | 0 <= i < |r| && 0 <= j < |r[i]| ensures r[i][j] != delimiter {
          if i == 0 && j > 0 { assert r[0][j] == rest[0][j - 1]; }
          if i > 0 { assert r[i] == rest[i]; }
        }
        if |rest| > 1 {
          assert Unsplit(rest, delimiter) == rest[0] + [delimiter] + Unsplit(rest[1..], delimiter);
        }
        assert lines == [lines[0]] + lines[1..];
      }
    }
  }

  /** Grouping the lines of delimiter-free entries joined by delimiter lines gives the entries back. */
  lemma {:induction false} GroupsOfUnsplit(groups: seq<seq<string>>, delimiter: string)
    requires |groups| >= 1 && DelimiterFree(groups, delimiter)
    ensures Groups(Unsplit(groups, delimiter), delimiter) == groups
    decreases |groups|
  {
    if |groups| == 1 {
      GroupsOfEntry(groups[0], [], delimiter);
      assert groups[0] + [] == groups[0];
    } else {
      assert DelimiterFree(groups[1..], delimiter) by {
        forall i, j | 0 <= i < |groups| - 1 && 0 <= j < |groups[1..][i]| ensures groups[1..][i][j] != delimiter {
          assert groups[1..][i] == groups[i + 1];
        }
      }
      GroupsOfUnsplit(groups[1..], delimiter);
      var tail := [delimiter] + Unsplit(groups[1..], delimiter);
      assert groups[0] + [delimiter] + Unsplit(groups[1..], delimiter) == groups[0] + tail;
      GroupsOfEntry(groups[0], tail, delimiter);
      assert tail[1..] == Unsplit(groups[1..], delimiter);
      assert Groups(tail, delimiter) == [[]] + Groups(tail[1..], delimiter);
      assert groups[0] + [] == groups[0];
      assert groups == [groups[0]] + groups[1..];
    }
  }

  /** A delimiter-free entry in front of `tail` becomes the front of the first group. */
  lemma {:induction false} GroupsOfEntry(entry: seq<string>, tail: seq<string>, delimiter: string)
    requires forall j | 0 <= j < |entry| :: entry[j] != delimiter
    ensures Groups(entry + tail, delimiter)
         == [entry + Groups(tail, delimiter)[0]] + Groups(tail, delimiter)[1..]
  {
    if |entry| > 0 {
      GroupsOfEntry(entry[1..], tail, delimiter);
      assert (entry + tail)[1..] == entry[1..] + tail;
      assert [entry[0]] + (entry[1..] + Groups(tail, delimiter)[0]) == entry + Groups(tail, delimiter)[0];
    } else {
      var g := Groups(tail, delimiter);
      assert entry + tail == tail;
      assert entry + g[0] == g[0];
      assert g == [g[0]] + g[1..];
    }
  }

  /** The search pattern for a key: the attribute delimiter, the key, a colon and a space. */
  function Pattern(dataKey: DataKey): string {
    [AttributeDelimiter] + Key(dataKey) + ": "
  }

  /** The text after the first `pattern` up to the next `;`. Like Kotlin's `substringAfter`, when the
      pattern is missing this is the text before the first `;` of the whole body. */
  function FetchWith(pattern: string, body: string): (r: string)
    ensures AttributeDelimiter !in r
  {
    SubstringBefore(SubstringAfter(body, pattern), AttributeDelimiter)
  }

  /** With a match, the value is the slice of the body that starts right after the pattern and
      runs up to the next `;` or the end of the body. */
  lemma FetchWithSlice(pattern: string, body: string, i: nat)
    requires Find(body, pattern) == Some(i)
    ensures var r := FetchWith(pattern, body);
      var start := i + |pattern|;
      && start + |r| <= |body| && body[start..start + |r|] == r
      && (start + |r| == |body| || body[start + |r|] == AttributeDelimiter)
  {
    var after := SubstringAfter(body, pattern);
    var start := i + |pattern|;
    SubstringBeforePrefix(after, AttributeDelimiter);
    assert after == body[start..];
    assert body[start..start + |FetchWith(pattern, body)|] == after[..|FetchWith(pattern, body)|];
  }

  /** The top-level `fetchValue`: the text after the first `;key: ` up to the next `;`. */
  function FetchValue(dataKey: DataKey, body: string): (r: string)
    ensures AttributeDelimiter !in r
    ensures Find(body, Pattern(dataKey)).Some? ==>
      var start := Find(body, Pattern(dataKey)).value + |Pattern(dataKey)|;
      && start + |r| <= |body| && body[start..start + |r|] == r
      && (start + |r| == |body| || body[start + |r|] == AttributeDelimiter)
  {
    match Find(body, Pattern(dataKey))
    case Some(i) =>
      FetchWithSlice(Pattern(dataKey), body, i);
      FetchWith(Pattern(dataKey), body)
    case None => FetchWith(Pattern(dataKey), body)
  }

  /** The joined attribute text of an entry: the lines joined with `;`, the text up to the first
      `;` removed, and `prependIndent(";")` applied. Since the parser trims every line first, the
      body it searches always begins with `;`. */
  function EntryBody(entry: seq<string>): (r: string)
    ensures (forall i | 0 <= i < |entry| :: IsTrimmed(entry[i]) && NoLineBreak(entry[i])) ==>
      |r| > 0 && r[0] == AttributeDelimiter
  {
    IndentedBodyStart(entry);
    PrependIndent(SubstringAfterChar(Join(entry, [AttributeDelimiter]), AttributeDelimiter), [AttributeDelimiter])
  }

  /** The attribute strings `parseYamlElement` extracts from an entry body. */
  function EntryFields(body: string): RawFields {
    RawFields(
      uuid := FetchValue(Uuid, body), nodeType := FetchValue(Type, body),
      description := FetchValue(Description, body), comment := FetchValue(Comment, body),
      dataType := FetchValue(DataType, body), unit := FetchValue(Unit, body),
      min := FetchValue(Min, body), max := FetchValue(Max, body))
  }

  function MissingType(vssPath: string): Error {
    FileParse(MissingTypeMessage(vssPath))
  }

  /** `parseYamlElement`: the path is the first line up to its first `:`; an empty or missing
      `type` is a parse error naming the path; `first()` on an empty entry throws. */
  function ParseYamlElement(entry: seq<string>, table: TypeTable): (r: Result<SpecModel>)
    ensures |entry| == 0 <==> r == Fail(NoSuchElement("List is empty."))
    ensures |entry| > 0 && r.Ok? ==> r.value.vssPath == SubstringBefore(entry[0], ':')
    ensures |entry| > 0 ==> (r.Fail? <==> FetchValue(Type, EntryBody(entry)) == "")
    ensures |entry| > 0 && r.Fail? ==> r.error == MissingType(SubstringBefore(entry[0], ':'))
    ensures r.Ok? ==> r.value.properties == ResolveProperties(EntryFields(EntryBody(entry)), table)
  {
    if |entry| == 0 then Fail(NoSuchElement("List is empty."))
    else
      var vssPath := SubstringBefore(entry[0], ':');
      var body := EntryBody(entry);
      var fields := EntryFields(body);
      if fields.nodeType == "" then Fail(MissingType(vssPath))
      else Ok(SpecModel(vssPath, ResolveProperties(fields, table)))
  }

  /** Parse the entries in file order; the first failing entry aborts the file. */
  function ParseEntries(groups: seq<seq<string>>, table: TypeTable): Result<seq<SpecModel>> {
    MapResult(groups, entry => ParseYamlElement(entry, table))
  }

  /** The exception `parseNodes` reports for a parse error in `filePath`. */
  function InvalidFile(filePath: string, message: string): Error {
    IOError("Invalid VSS File: '" + filePath + ": " + message + "'")
  }

  /** `parseNodes`: trim the lines, group them into entries, parse every entry. A parse error is
      rethrown as an `IOException` naming the file; an empty entry's exception escapes as it is. */
  function ParseNodes(lines: seq<string>, delimiter: string, filePath: string, table: TypeTable): (r: Result<seq<SpecModel>>)
    ensures r.Ok? ==> |r.value| == |Groups(TrimAll(lines), delimiter)|
    ensures r.Fail? ==> r.error.IOError? || r.error == NoSuchElement("List is empty.")
  {
    var groups := Groups(TrimAll(lines), delimiter);
    match ParseEntries(groups, table)
    case Ok(nodes) => Ok(nodes)
    case Fail(e) =>
      EntriesErrorKind(groups, table);
      Fail(Rethrow(filePath, e))
  }

  /** An entry fails either with `NoSuchElementException` or with the parser's own
      `FileParseException`. */
  lemma EntriesErrorKind(groups: seq<seq<string>>, table: TypeTable)
    requires ParseEntries(groups, table).Fail?
    ensures var e := ParseEntries(groups, table).error; e.FileParse? || e == NoSuchElement("List is empty.")
  {
    ParseEntriesFailure(groups, table);
  }

  /** The `catch` around the entries: only a `FileParseException` is rewrapped. */
  function Rethrow(filePath: string, e: Error): Error {
    match e
    case FileParse(message) => InvalidFile(filePath, message)
    case _ => e
  }

  // ---------------------------------------------------------------------------------------------
  // The joined attribute body

  lemma {:induction false} JoinEndsWithNonWhitespace(parts: seq<string>)
    requires forall i | 0 <= i < |parts| :: IsTrimmed(parts[i])
    ensures var j := Join(parts, [AttributeDelimiter]); |j| > 0 ==> !IsWhitespace(j[|j| - 1])
  {
    if |parts| >= 2 {
      JoinEndsWithNonWhitespace(parts[1..]);
    }
  }

  lemma {:induction false} JoinHasNoLineBreak(parts: seq<string>)
    requires forall i | 0 <= i < |parts| :: NoLineBreak(parts[i])
    ensures NoLineBreak(Join(parts, [AttributeDelimiter]))
  {
    if |parts| >= 2 {
      JoinHasNoLineBreak(parts[1..]);
    }
  }

  /** A non-empty string ending in a non-whitespace character is not blank, so `prependIndent`
      puts the indent in front of it; the empty string becomes the indent itself. */
  lemma IndentNonBlank(rest: string)
    requires NoLineBreak(rest)
    requires |rest| > 0 ==> !IsWhitespace(rest[|rest| - 1])
    ensures PrependIndent(rest, [AttributeDelimiter]) == [AttributeDelimiter] + rest
  {
    if |rest| == 0 {
      assert IsBlank(rest);
    } else {
      assert !IsBlank(rest);
    }
  }

  /** With trimmed lines, the text after the first `;` is empty or ends in a non-whitespace
      character, so `prependIndent` puts `;` in front of it. */
  lemma IndentedBodyStart(entry: seq<string>)
    ensures (forall i | 0 <= i < |entry| :: IsTrimmed(entry[i]) && NoLineBreak(entry[i])) ==>
      var b := PrependIndent(SubstringAfterChar(Join(entry, [AttributeDelimiter]), AttributeDelimiter), [AttributeDelimiter]);
      |b| > 0 && b[0] == AttributeDelimiter
  {
    if forall i | 0 <= i < |entry| :: IsTrimmed(entry[i]) && NoLineBreak(entry[i]) {
      TrimmedBodyStart(entry);
    }
  }

  lemma TrimmedBodyStart(entry: seq<string>)
    requires forall i | 0 <= i < |entry| :: IsTrimmed(entry[i]) && NoLineBreak(entry[i])
    ensures var rest := SubstringAfterChar(Join(entry, [AttributeDelimiter]), AttributeDelimiter);
      PrependIndent(rest, [AttributeDelimiter]) == [AttributeDelimiter] + rest
  {
    TrimmedRest(entry);
    IndentNonBlank(SubstringAfterChar(Join(entry, [AttributeDelimiter]), AttributeDelimiter));
  }

  /** The text after the first `;` of trimmed lines is one line and does not end in whitespace. */
  lemma TrimmedRest(entry: seq<string>)
    requires forall i | 0 <= i < |entry| :: IsTrimmed(entry[i]) && NoLineBreak(entry[i])
    ensures var rest := SubstringAfterChar(Join(entry, [AttributeDelimiter]), AttributeDelimiter);
      NoLineBreak(rest) && (|rest| > 0 ==> !IsWhitespace(rest[|rest| - 1]))
  {
    var joined := Join(entry, [AttributeDelimiter]);
    var rest := SubstringAfterChar(joined, AttributeDelimiter);
    JoinEndsWithNonWhitespace(entry);
    JoinHasNoLineBreak(entry);
    assert rest == joined[|joined| - |rest|..];
    if |rest| > 0 {
      assert rest[|rest| - 1] == joined[|joined| - 1];
    }
  }

  /** An entry with attribute lines and a `;`-free header line: its body is `;` followed by the
      attribute lines joined with `;`. */
  lemma MultiLineBody(entry: seq<string>)
    requires |entry| >= 2
    requires forall i | 0 <= i < |entry| :: IsTrimmed(entry[i]) && NoLineBreak(entry[i])
    requires AttributeDelimiter !in entry[0]
    ensures EntryBody(entry) == [AttributeDelimiter] + Join(entry[1..], [AttributeDelimiter])
  {
    var joined := Join(entry, [AttributeDelimiter]);
    var tail := Join(entry[1..], [AttributeDelimiter]);
    assert SubstringAfterChar(joined, AttributeDelimiter) == tail by {
      assert joined == entry[0] + [AttributeDelimiter] + tail;
      assert joined[|entry[0]|] == AttributeDelimiter;
      var rest := SubstringAfterChar(joined, AttributeDelimiter);
      var i :| 0 <= i < |joined| && joined[i] == AttributeDelimiter && AttributeDelimiter !in joined[..i] && rest == joined[i + 1..];
    }
    assert PrependIndent(tail, [AttributeDelimiter]) == [AttributeDelimiter] + tail by {
      JoinEndsWithNonWhitespace(entry[1..]);
      JoinHasNoLineBreak(entry[1..]);
      IndentNonBlank(tail);
    }
  }

  /** A one-line entry has no `;` to strip up to, so Kotlin's `substringAfter` keeps the whole
      line: the header line itself is searched for attributes. */
  lemma SingleLineBody(line: string)
    requires IsTrimmed(line) && NoLineBreak(line) && AttributeDelimiter !in line
    ensures EntryBody([line]) == [AttributeDelimiter] + line
  {
    IndentNonBlank(line);
  }

  // ---------------------------------------------------------------------------------------------
  // Attribute lookup

  /** The reference meaning of an attribute lookup: the remainder of the first attribute line that
      starts with `prefix`, or the empty string when none does. */
  function Lookup(attributes: seq<string>, prefix: string): string {
    if |attributes| == 0 then ""
    else if StartsWith(attributes[0], prefix) then attributes[0][|prefix|..]
    else Lookup(attributes[1..], prefix)
  }

  function Shift(o: Option<nat>, n: nat): Option<nat> {
    match o
    case None => None
    case Some(i) => Some(i + n)
  }

  /** A prefix that cannot hold the pattern's first character only shifts the first match. */
  lemma {:induction false} FindAfterPrefix(x: string, y: string, pat: string)
    requires |pat| > 0 && pat[0] !in x
    ensures Find(x + y, pat) == Shift(Find(y, pat), |x|)
  {
    if |x| == 0 {
      assert x + y == y;
    } else if |pat| > |x + y| {
      assert Find(y, pat).None? by {
        if Find(y, pat).Some? { assert OccursAt(y, pat, Find(y, pat).value); }
      }
    } else {
      var xy := x + y;
      assert xy[0] == x[0];
      assert !OccursAt(xy, pat, 0);
      FindStep(xy, pat);
      assert xy[1..] == x[1..] + y;
      FindAfterPrefix(x[1..], y, pat);
      ShiftShift(Find(y, pat), |x| - 1, 1);
    }
  }

  lemma KeyHasNoDelimiter(dataKey: DataKey)
    ensures AttributeDelimiter !in Key(dataKey) + ": "
  {
  }

  /** Splitting `v + tail` at the first `;` gives `v` when `v` has none and `tail` starts with one. */
  lemma BeforeDelimiter(v: string, tail: string)
    requires AttributeDelimiter !in v
    requires tail == [] || tail[0] == AttributeDelimiter
    ensures SubstringBefore(v + tail, AttributeDelimiter) == v
  {
    if tail == [] {
      assert v + tail == v;
    } else {
      assert (v + tail)[|v|] == AttributeDelimiter;
    }
  }

  /** A body that starts with `;` and holds no match yields the empty string. */
  lemma FetchNoMatch(pattern: string, body: string)
    requires Find(body, pattern).None?
    requires body == [] || body[0] == AttributeDelimiter
    ensures FetchWith(pattern, body) == ""
  {
    if body == [] {
      assert SubstringAfter(body, pattern) == [];
    }
  }

  /** When the first attribute line starts with `keyColon`, the lookup returns the rest of that line. */
  lemma FetchFirstAttribute(a0: string, tail: string, keyColon: string)
    requires AttributeDelimiter !in a0
    requires StartsWith(a0, keyColon)
    requires tail == [] || tail[0] == AttributeDelimiter
    ensures FetchWith([AttributeDelimiter] + keyColon, [AttributeDelimiter] + a0 + tail) == a0[|keyColon|..]
  {
    var body := [AttributeDelimiter] + a0 + tail;
    var pat := [AttributeDelimiter] + keyColon;
    var n := |keyColon|;
    assert Find(body, pat) == Some(0) by {
      assert body[..|pat|] == [AttributeDelimiter] + a0[..n];
      assert OccursAt(body, pat, 0);
    }
    assert SubstringAfter(body, pat) == a0[n..] + tail by {
      assert body[|pat|..] == a0[n..] + tail;
    }
    BeforeDelimiter(a0[n..], tail);
  }

  /** The pattern does not match at the start of a body whose first line does not start with the key. */
  lemma NoMatchAtFirstLine(a0: string, tail: string, keyColon: string)
    requires AttributeDelimiter !in a0 && AttributeDelimiter !in keyColon
    requires !StartsWith(a0, keyColon)
    requires tail == [] || tail[0] == AttributeDelimiter
    ensures !OccursAt([AttributeDelimiter] + a0 + tail, [AttributeDelimiter] + keyColon, 0)
  {
    var body := [AttributeDelimiter] + a0 + tail;
    var pat := [AttributeDelimiter] + keyColon;
    assert pat[1..] == keyColon;
    if |a0| >= |keyColon| {
      assert body[1..|pat|] == a0[..|keyColon|];
    } else if |pat| <= |body| {
      assert body[1 + |a0|] == AttributeDelimiter;
      assert pat[1 + |a0|] == keyColon[|a0|];
    }
  }

  /** One step of the search: no match at the front moves the search one character on. */
  lemma FindStep(s: string, pat: string)
    requires |pat| <= |s| && !OccursAt(s, pat, 0)
    ensures Find(s, pat) == Shift(Find(s[1..], pat), 1)
  {
  }

  lemma ShiftShift(x: Option<nat>, a: nat, b: nat)
    ensures Shift(Shift(x, a), b) == Shift(x, a + b)
  {
  }

  /** Past a first line that cannot start the match, the search resumes one character on. */
  lemma FindSkipsFirstLine(body: string, a0: string, tail: string, keyColon: string)
    requires body == [AttributeDelimiter] + a0 + tail
    requires AttributeDelimiter !in a0 && AttributeDelimiter !in keyColon
    requires !StartsWith(a0, keyColon)
    requires tail == [] || tail[0] == AttributeDelimiter
    requires 1 + |keyColon| <= |body|
    ensures Find(body, [AttributeDelimiter] + keyColon) == Shift(Find(body[1..], [AttributeDelimiter] + keyColon), 1)
  {
    NoMatchAtFirstLine(a0, tail, keyColon);
    FindStep(body, [AttributeDelimiter] + keyColon);
  }

  /** Where the first match lies when the first line cannot hold one. */
  lemma FindPastFirstLine(body: string, pat: string, a0: string, tail: string, keyColon: string)
    requires body == [AttributeDelimiter] + a0 + tail && pat == [AttributeDelimiter] + keyColon
    requires AttributeDelimiter !in a0 && AttributeDelimiter !in keyColon
    requires !StartsWith(a0, keyColon)
    requires tail == [] || tail[0] == AttributeDelimiter
    ensures Find(body, pat) == Shift(Find(tail, pat), 1 + |a0|)
  {
    if |pat| > |body| {
      assert Find(tail, pat) == None;
    } else {
      FindSkipsFirstLine(body, a0, tail, keyColon);
      assert body[1..] == a0 + tail;
      FindAfterPrefix(a0, tail, pat);
      ShiftShift(Find(tail, pat), |a0|, 1);
    }
  }

  /** When the first attribute line does not start with `keyColon`, it is skipped: the `;` in the
      pattern cannot match inside it. */
  lemma FetchSkipsAttribute(body: string, pat: string, a0: string, tail: string, keyColon: string)
    requires body == [AttributeDelimiter] + a0 + tail && pat == [AttributeDelimiter] + keyColon
    requires AttributeDelimiter !in a0 && AttributeDelimiter !in keyColon
    requires !StartsWith(a0, keyColon)
    requires tail == [] || tail[0] == AttributeDelimiter
    ensures FetchWith(pat, body) == FetchWith(pat, tail)
  {
    FindPastFirstLine(body, pat, a0, tail, keyColon);
    if Find(tail, pat).None? {
      FetchNoMatch(pat, tail);
      FetchNoMatch(pat, body);
    } else {
      var i := Find(tail, pat).value;
      assert body[1 + |a0| + i + |pat|..] == tail[i + |pat|..];
      assert SubstringAfter(body, pat) == SubstringAfter(tail, pat);
    }
  }

  /** `fetchValue` on a body built from `;`-free attribute lines is the reference `Lookup`: the
      leading `;` of the pattern only matches at the start of an attribute line. */
  lemma {:induction false} FetchIsLookupOf(attributes: seq<string>, keyColon: string)
    requires forall i | 0 <= i < |attributes| :: AttributeDelimiter !in attributes[i]
    requires |keyColon| > 0 && AttributeDelimiter !in keyColon
    ensures FetchWith([AttributeDelimiter] + keyColon, [AttributeDelimiter] + Join(attributes, [AttributeDelimiter]))
         == Lookup(attributes, keyColon)
  {
    var pat := [AttributeDelimiter] + keyColon;
    var body := [AttributeDelimiter] + Join(attributes, [AttributeDelimiter]);
    if |attributes| == 0 {
      assert body == [AttributeDelimiter];
      assert Find(body, pat).None?;
      FetchNoMatch(pat, body);
    } else {
      var a0 := attributes[0];
      var rest := attributes[1..];
      var tail := if |attributes| == 1 then [] else [AttributeDelimiter] + Join(rest, [AttributeDelimiter]);
      assert body == [AttributeDelimiter] + a0 + tail;
      if StartsWith(a0, keyColon) {
        FetchFirstAttribute(a0, tail, keyColon);
        assert Lookup(attributes, keyColon) == a0[|keyColon|..];
      } else {
        FetchSkipsAttribute(body, pat, a0, tail, keyColon);
        assert Lookup(attributes, keyColon) == Lookup(rest, keyColon);
        if |attributes| == 1 {
          assert Find(tail, pat).None?;
          FetchNoMatch(pat, tail);
        } else {
          assert forall i | 0 <= i < |rest| :: rest[i] == attributes[i + 1];
          FetchIsLookupOf(rest, keyColon);
        }
      }
    }
  }

  /** The same for a data key: `fetchValue(key)` is the `Lookup` of `key: `. */
  lemma FetchIsLookup(attributes: seq<string>, dataKey: DataKey)
    requires forall i | 0 <= i < |attributes| :: AttributeDelimiter !in attributes[i]
    ensures FetchValue(dataKey, [AttributeDelimiter] + Join(attributes, [AttributeDelimiter]))
         == Lookup(attributes, Key(dataKey) + ": ")
  {
    KeyHasNoDelimiter(dataKey);
    assert Pattern(dataKey) == [AttributeDelimiter] + (Key(dataKey) + ": ");
    FetchIsLookupOf(attributes, Key(dataKey) + ": ");
  }

  /** The attributes of a multi-line entry are looked up among its attribute lines only. */
  lemma EntryAttribute(entry: seq<string>, dataKey: DataKey)
    requires |entry| >= 2
    requires forall i | 0 <= i < |entry| :: IsTrimmed(entry[i]) && NoLineBreak(entry[i]) && AttributeDelimiter !in entry[i]
    ensures FetchValue(dataKey, EntryBody(entry)) == Lookup(entry[1..], Key(dataKey) + ": ")
  {
    MultiLineBody(entry);
    FetchIsLookup(entry[1..], dataKey);
  }

  /** The attributes of a one-line entry are looked up in its header line. */
  lemma SingleLineEntryAttribute(line: string, dataKey: DataKey)
    requires IsTrimmed(line) && NoLineBreak(line) && AttributeDelimiter !in line
    ensures FetchValue(dataKey, EntryBody([line])) == Lookup([line], Key(dataKey) + ": ")
  {
    SingleLineBody(line);
    FetchIsLookup([line], dataKey);
  }

  /** A `datatype` attribute never supplies the `type`: `;type: ` cannot match inside `datatype: `. */
  lemma TypeNotReadFromDatatype(attributes: seq<string>, dataType: string)
    requires |attributes| > 0 && attributes[0] == "datatype: " + dataType
    requires forall i | 0 <= i < |attributes| :: AttributeDelimiter !in attributes[i]
    ensures FetchValue(Type, [AttributeDelimiter] + Join(attributes, [AttributeDelimiter]))
         == Lookup(attributes[1..], "type: ")
  {
    assert Key(Type) + ": " == "type: ";
    assert !StartsWith(attributes[0], "type: ") by {
      assert attributes[0][0] == 'd';
    }
    FetchIsLookup(attributes, Type);
  }

  // ---------------------------------------------------------------------------------------------
  // Whole files

  /** One node per entry: the number of delimiter lines plus one. */
  lemma NodeCount(lines: seq<string>, delimiter: string, filePath: string, table: TypeTable)
    requires ParseNodes(lines, delimiter, filePath, table).Ok?
    ensures |ParseNodes(lines, delimiter, filePath, table).value| == CountDelimiters(TrimAll(lines), delimiter) + 1
  {
    GroupsShape(TrimAll(lines), delimiter);
  }

  /** An entry `parseYamlElement` accepts: it has a header line and a non-empty `type`. */
  predicate EntryAccepted(entry: seq<string>) {
    |entry| > 0 && FetchValue(Type, EntryBody(entry)) != ""
  }

  /** The error `parseYamlElement` raises for a rejected entry. */
  function EntryError(entry: seq<string>): Error {
    if |entry| == 0 then NoSuchElement("List is empty.") else MissingType(SubstringBefore(entry[0], ':'))
  }

  /** A file parses exactly when every entry is non-empty and has a non-empty `type`. */
  lemma ParseEntriesSucceeds(groups: seq<seq<string>>, table: TypeTable)
    ensures ParseEntries(groups, table).Ok? <==> forall i | 0 <= i < |groups| :: EntryAccepted(groups[i])
  {
    var f := entry => ParseYamlElement(entry, table);
    forall i | 0 <= i < |groups|
      ensures f(groups[i]).Ok? <==> EntryAccepted(groups[i])
    {
      var r := ParseYamlElement(groups[i], table);
    }
  }

  /** `i` is the first entry `parseYamlElement` rejects. */
  predicate FirstRejected(groups: seq<seq<string>>, i: int) {
    && 0 <= i < |groups|
    && (forall j | 0 <= j < i :: EntryAccepted(groups[j]))
    && !EntryAccepted(groups[i])
  }

  /** A failing list of entries reports the error of its first rejected entry. */
  lemma ParseEntriesFailure(groups: seq<seq<string>>, table: TypeTable)
    requires ParseEntries(groups, table).Fail?
    ensures exists i :: FirstRejected(groups, i) && ParseEntries(groups, table).error == EntryError(groups[i])
  {
    var f := entry => ParseYamlElement(entry, table);
    var r := ParseEntries(groups, table);
    var i :| 0 <= i < |groups| && (forall j | 0 <= j < i :: f(groups[j]).Ok?) && f(groups[i]) == Fail(r.error);
    forall j | 0 <= j < i
      ensures EntryAccepted(groups[j])
    {
      assert f(groups[j]) == ParseYamlElement(groups[j], table);
    }
    assert f(groups[i]) == ParseYamlElement(groups[i], table);
    assert FirstRejected(groups, i);
  }

  /** What the file-level error says: an empty entry escapes as `NoSuchElementException`, a missing
      `type` becomes an `IOException` naming the file and the entry's path. */
  lemma RethrownEntryError(filePath: string, entry: seq<string>)
    ensures |entry| == 0 ==> Rethrow(filePath, EntryError(entry)) == NoSuchElement("List is empty.")
    ensures |entry| > 0 ==>
      Rethrow(filePath, EntryError(entry)) == InvalidFile(filePath, MissingType(SubstringBefore(entry[0], ':')).message)
  {
  }

  /** A failing file reports the rethrown error of its first rejected entry. */
  lemma ParseNodesFailure(lines: seq<string>, delimiter: string, filePath: string, table: TypeTable)
    requires ParseNodes(lines, delimiter, filePath, table).Fail?
    ensures exists i ::
      && FirstRejected(Groups(TrimAll(lines), delimiter), i)
      && ParseNodes(lines, delimiter, filePath, table).error == Rethrow(filePath, EntryError(Groups(TrimAll(lines), delimiter)[i]))
  {
    var groups := Groups(TrimAll(lines), delimiter);
    ParseEntriesFailure(groups, table);
    var e0 := ParseEntries(groups, table).error;
    var i :| FirstRejected(groups, i) && e0 == EntryError(groups[i]);
    var e := ParseNodes(lines, delimiter, filePath, table).error;
    assert e == Rethrow(filePath, e0);
    assert FirstRejected(groups, i) && e == Rethrow(filePath, EntryError(groups[i]));
  }
}
