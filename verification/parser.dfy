/**
 * `DataParser`: the per-line logic of `parseStudents` as a pure function
 * from the lines of a file to the student records it yields, together with
 * `parseListField` and `parseInteger`.
 *
 * A line is trimmed; blank lines and lines starting with '#' are skipped;
 * the first remaining line is dropped when it looks like a header; every
 * other line is split on ',' (keeping empty fields), padded to eight fields
 * and turned into one record.
 */
module Parser {
  import opened Wrappers
  import opened JavaInt
  import opened Students
  import Text

  // ---------------------------------------------------------------------
  // parseListField
  // ---------------------------------------------------------------------

  /** A token `parseListField` can return: non-empty, trimmed, without ';'. */
  predicate IsToken(t: string) {
    t != [] && Text.IsTrimmed(t) && ';' !in t
  }

  /** Every piece trimmed, in order. */
  function TrimAll(pieces: seq<string>): (r: seq<string>)
    ensures |r| == |pieces|
    ensures forall i :: 0 <= i < |r| ==> r[i] == Text.Trim(pieces[i]) && Text.IsTrimmed(r[i])
  {
    seq(|pieces|, i requires 0 <= i < |pieces| => Text.Trim(pieces[i]))
  }

  /** The strings of `xs` that are not empty, in order. */
  function NonBlank(xs: seq<string>): (r: seq<string>)
    ensures |r| <= |xs|
    ensures forall x :: x in r <==> x in xs && x != []
  {
    if xs == [] then []
    else (if xs[0] == [] then [] else [xs[0]]) + NonBlank(xs[1..])
  }

  /** Reference count: how many strings of `xs` are not empty. */
  function Filled(xs: seq<string>): nat {
    if xs == [] then 0 else (if xs[0] == [] then 0 else 1) + Filled(xs[1..])
  }

  /**
   * `NonBlank` keeps exactly the non-empty strings, in order: the entry at
   * position i, when not empty, lands at its rank among the non-empty
   * entries before it, and there are no other entries.
   */
  lemma {:induction false} NonBlankIsFilter(xs: seq<string>)
    ensures |NonBlank(xs)| == Filled(xs)
    ensures forall i :: 0 <= i < |xs| && xs[i] != [] ==>
      Filled(xs[..i]) < |NonBlank(xs)| && NonBlank(xs)[Filled(xs[..i])] == xs[i]
  {
    if xs != [] {
      var t := xs[1..];
      NonBlankIsFilter(t);
      var h: seq<string> := if xs[0] == [] then [] else [xs[0]];
      assert NonBlank(xs) == h + NonBlank(t);
      forall i | 0 <= i < |xs| && xs[i] != []
        ensures Filled(xs[..i]) < |NonBlank(xs)| && NonBlank(xs)[Filled(xs[..i])] == xs[i]
      {
        if i == 0 {
          assert xs[..0] == [];
        } else {
          assert xs[..i][0] == xs[0] && xs[..i][1..] == t[..i - 1];
          assert xs[i] == t[i - 1];
          assert Filled(xs[..i]) == |h| + Filled(t[..i - 1]);
        }
      }
    }
  }

  /**
   * `parseListField(raw)`: `null` or a blank field gives no tokens; otherwise
   * the ';'-separated pieces of the trimmed field, each trimmed, blank ones
   * dropped. Every token uses only characters of the field.
   */
  function ParseListField(raw: Option<string>): (r: seq<string>)
    ensures raw.None? ==> r == []
    ensures raw.Some? && Text.Trim(raw.value) == [] ==> r == []
    ensures forall k :: 0 <= k < |r| ==> IsToken(r[k])
    ensures forall k, c :: 0 <= k < |r| && c in r[k] ==> raw.Some? && c in raw.value
  {
    var field := if raw.None? then [] else Text.Trim(raw.value);
    if field == [] then []
    else
      var r := NonBlank(TrimAll(Text.Split(field, ';')));
      CleanPieces(field, r);
      forall k, c | 0 <= k < |r| && c in r[k]
        ensures c in raw.value
      {
        assert IsToken(r[k]) && forall c' :: c' in r[k] ==> c' in field;
        Text.TrimKeepsCharacters(raw.value, c);
      }
      r
  }

  /** The trimmed, non-blank pieces of a field are tokens made of the field's characters. */
  lemma CleanPieces(field: string, r: seq<string>)
    requires r == NonBlank(TrimAll(Text.Split(field, ';')))
    ensures forall k :: 0 <= k < |r| ==> IsToken(r[k]) && forall c :: c in r[k] ==> c in field
  {
    var pieces := Text.Split(field, ';');
    var trimmed := TrimAll(pieces);
    forall k | 0 <= k < |r|
      ensures IsToken(r[k]) && forall c :: c in r[k] ==> c in field
    {
      assert r[k] in trimmed;
      var j :| 0 <= j < |trimmed| && r[k] == trimmed[j];
      PieceCharacters(field, pieces, j);
      forall c | c in r[k]
        ensures c in field && c != ';'
      {
        Text.TrimKeepsCharacters(pieces[j], c);
      }
    }
  }

  /** The characters of a piece are characters of the field, and not the separator. */
  lemma PieceCharacters(field: string, pieces: seq<string>, j: nat)
    requires pieces == Text.Split(field, ';') && j < |pieces|
    ensures ';' !in pieces[j]
    ensures forall c :: c in pieces[j] ==> c in field
  {
    Text.JoinOfSplit(field, ';');
    forall c | c in pieces[j]
      ensures c in field
    {
      Text.JoinKeeps(pieces, ';', j, c);
    }
  }

  /** Tokens that are already clean pass the token loop unchanged. */
  lemma {:induction false} CleanOfTokens(ts: seq<string>)
    requires forall k :: 0 <= k < |ts| ==> ts[k] != [] && Text.IsTrimmed(ts[k])
    ensures NonBlank(TrimAll(ts)) == ts
  {
    forall k | 0 <= k < |ts|
      ensures TrimAll(ts)[k] == ts[k]
    {
      Text.TrimOfTrimmed(ts[k]);
    }
    assert TrimAll(ts) == ts;
    NonBlankOfFull(ts);
  }

  lemma {:induction false} NonBlankOfFull(xs: seq<string>)
    requires forall k :: 0 <= k < |xs| ==> xs[k] != []
    ensures NonBlank(xs) == xs
  {
    if xs != [] {
      NonBlankOfFull(xs[1..]);
      assert [xs[0]] + xs[1..] == xs;
    }
  }

  /** Round trip: joining tokens with ';' and parsing the field gives the tokens back. */
  lemma ListFieldOfJoin(ts: seq<string>)
    requires forall k :: 0 <= k < |ts| ==> IsToken(ts[k])
    ensures ParseListField(Some(Text.Join(ts, ';'))) == ts
  {
    var j := Text.Join(ts, ';');
    if ts == [] {
      Text.TrimOfTrimmed(j);
    } else {
      JoinOfTokens(ts);
      Text.TrimOfTrimmed(j);
      ListFieldOfField(j);
      Text.SplitJoin(ts, ';');
      CleanOfTokens(ts);
      assert ParseListField(Some(j)) == NonBlank(TrimAll(Text.Split(j, ';')));
    }
  }

  /** Tokens joined with ';' make a non-empty trimmed field. */
  lemma JoinOfTokens(ts: seq<string>)
    requires ts != [] && forall k :: 0 <= k < |ts| ==> IsToken(ts[k])
    ensures Text.Join(ts, ';') != [] && Text.IsTrimmed(Text.Join(ts, ';'))
  {
    Text.JoinEnds(ts, ';');
    var first, last := ts[0], ts[|ts| - 1];
    assert IsToken(first) && IsToken(last);
  }

  /** The non-blank branch of `ParseListField`, unfolded. */
  lemma ListFieldOfField(s: string)
    requires Text.Trim(s) != []
    ensures ParseListField(Some(s)) == NonBlank(TrimAll(Text.Split(Text.Trim(s), ';')))
  {
  }

  /**
   * For a non-blank field, the tokens are the ';'-separated pieces of the
   * trimmed field, each trimmed, with the blank ones dropped, in their
   * original order: the i-th piece, when not blank after trimming, is token
   * number "non-blank pieces before i", and there are no other tokens.
   */
  lemma ListFieldPieces(s: string)
    requires Text.Trim(s) != []
    ensures var ps, r := Text.Split(Text.Trim(s), ';'), ParseListField(Some(s));
      && |r| == Filled(TrimAll(ps))
      && forall i :: 0 <= i < |ps| && Text.Trim(ps[i]) != [] ==>
           Filled(TrimAll(ps[..i])) < |r| && r[Filled(TrimAll(ps[..i]))] == Text.Trim(ps[i])
  {
    var ps, r := Text.Split(Text.Trim(s), ';'), ParseListField(Some(s));
    var ts := TrimAll(ps);
    ListFieldOfField(s);
    NonBlankIsFilter(ts);
    forall i | 0 <= i < |ps| && Text.Trim(ps[i]) != []
      ensures Filled(TrimAll(ps[..i])) < |r| && r[Filled(TrimAll(ps[..i]))] == Text.Trim(ps[i])
    {
      assert TrimAll(ps[..i]) == ts[..i];
      assert ts[i] == Text.Trim(ps[i]);
    }
  }

  /** `parseListField` is idempotent through `String.join(";", …)`. */
  lemma ListFieldIdempotent(raw: Option<string>)
    ensures ParseListField(Some(Text.Join(ParseListField(raw), ';'))) == ParseListField(raw)
  {
    ListFieldOfJoin(ParseListField(raw));
  }

  // ---------------------------------------------------------------------
  // parseInteger
  // ---------------------------------------------------------------------

  predicate IsDigit(c: char) {
    '0' <= c <= '9'
  }

  predicate AllDigits(s: string) {
    forall k :: 0 <= k < |s| ==> IsDigit(s[k])
  }

  /** The value of a string of decimal digits, most significant first. */
  function DecimalValue(s: string): nat
    requires AllDigits(s)
  {
    if s == [] then 0
    else
      var c := s[|s| - 1];
      assert IsDigit(c) && '0' as int <= c as int;
      10 * DecimalValue(s[..|s| - 1]) + (c as int - '0' as int)
  }

  /**
   * `Integer.parseInt(s)` in radix 10: an optional '-' or '+', then at least
   * one digit, with a value that fits in 32 bits; `None` stands for the
   * `NumberFormatException`.
   */
  function ParseInt(s: string): (r: Option<int32>)
    ensures r.Some? ==> s != [] && IsDigit(s[|s| - 1])
    ensures r.Some? ==> forall k :: 0 < k < |s| ==> IsDigit(s[k])
    ensures r.Some? ==> IsDigit(s[0]) || ((s[0] == '-' || s[0] == '+') && |s| > 1)
  {
    var signed := s != [] && (s[0] == '-' || s[0] == '+');
    var digits := if signed then s[1..] else s;
    if digits == [] || !AllDigits(digits) then None
    else
      var v: int := if signed && s[0] == '-' then -(DecimalValue(digits) as int) else DecimalValue(digits);
      if MinInt <= v <= MaxInt then Some(v) else None
  }

  /**
   * Conversely, an optional '-' or '+' followed by at least one digit is
   * read as the signed decimal value, and rejected exactly when that value
   * does not fit in 32 bits.
   */
  lemma ParseIntOfSignedDigits(sign: string, digits: string)
    requires sign == [] || sign == ['-'] || sign == ['+']
    requires digits != [] && AllDigits(digits)
    ensures var v := if sign == ['-'] then -(DecimalValue(digits) as int) else DecimalValue(digits) as int;
      ParseInt(sign + digits) == if MinInt <= v <= MaxInt then Some(v) else None
  {
    var s := sign + digits;
    if sign == [] {
      assert s == digits && IsDigit(s[0]);
    } else {
      assert s[0] == sign[0] && s[1..] == digits;
    }
  }

  /**
   * `parseInteger(s)`: the value of the trimmed field, or 0 when it is not a
   * 32-bit decimal integer.
   */
  function ParseInteger(s: string): (r: int32)
    ensures r != 0 ==> ParseInt(Text.Trim(s)).Some?
  {
    match ParseInt(Text.Trim(s))
    case Some(v) => v
    case None => 0
  }

  /** The decimal digits of `n`, most significant first, without leading zeros. */
  function Digits(n: nat): (r: string)
    ensures r != [] && AllDigits(r) && DecimalValue(r) == n
    ensures |r| > 1 ==> r[0] != '0'
  {
    var d := ['0' + (n % 10) as char];
    if n < 10 then d
    else
      var r := Digits(n / 10) + d;
      assert r[..|r| - 1] == Digits(n / 10);
      r
  }

  /** `Integer.toString(n)`: a '-' for negative values, then the digits. */
  function Format(n: int): (r: string)
    ensures r != [] && Text.IsTrimmed(r) && ',' !in r
  {
    if n < 0 then ['-'] + Digits(-n) else Digits(n)
  }

  /** Round trip: parsing the text of any 32-bit integer gives it back, with or without blanks around it. */
  lemma ParseIntegerOfFormat(n: int32, before: string, after: string)
    requires forall k :: 0 <= k < |before| ==> Text.IsWhite(before[k])
    requires forall k :: 0 <= k < |after| ==> Text.IsWhite(after[k])
    ensures ParseInteger(Format(n)) == n
    ensures ParseInteger(before + Format(n) + after) == n
  {
    var f := Format(n);
    ParseIntOfFormat(n);
    Text.TrimOfTrimmed(f);
    TrimPadded(before, f, after);
  }

  lemma ParseIntOfFormat(n: int32)
    ensures ParseInt(Format(n)) == Some(n)
  {
    if n < 0 {
      assert Format(n)[1..] == Digits(-(n as int));
    }
  }

  /** Blanks around a trimmed text are exactly what `trim` removes. */
  lemma TrimPadded(before: string, t: string, after: string)
    requires t != [] && Text.IsTrimmed(t)
    requires forall k :: 0 <= k < |before| ==> Text.IsWhite(before[k])
    requires forall k :: 0 <= k < |after| ==> Text.IsWhite(after[k])
    ensures Text.Trim(before + t + after) == t
  {
    var s := before + t + after;
    Text.TrimShape(s);
    var i :| Text.TrimmedAt(s, Text.Trim(s), i);
    var r := Text.Trim(s);
    var j := i + |r|;
    assert !Text.IsWhite(s[|before|]) && !Text.IsWhite(s[|before| + |t| - 1]);
    assert i <= |before| && |before| + |t| <= j;
    assert r[0] == s[i] && r[|r| - 1] == s[j - 1];
    assert forall k :: 0 <= k < |before| ==> s[k] == before[k];
    assert forall k :: |before| + |t| <= k < |s| ==> s[k] == after[k - |before| - |t|];
    assert i == |before| && j == |before| + |t|;
    assert r == s[|before|..|before| + |t|] == t;
  }

  /** Values beyond 32 bits are rejected like malformed text. */
  lemma ParseIntegerOverflow(n: int)
    requires n < MinInt || n > MaxInt
    ensures ParseInteger(Format(n)) == 0
  {
    var f := Format(n);
    Text.TrimOfTrimmed(f);
    if n < 0 {
      assert f[1..] == Digits(-n);
    }
  }

  /** A character other than a digit after the first position makes the field read as 0. */
  lemma ParseIntegerRejects(s: string, k: nat)
    requires 0 < k < |Text.Trim(s)| && !IsDigit(Text.Trim(s)[k])
    ensures ParseInteger(s) == 0
  {
  }

  // ---------------------------------------------------------------------
  // One record line
  // ---------------------------------------------------------------------

  /** The number of columns a record line is padded to. */
  const FieldCount: nat := 8

  /** A line with fewer than eight fields is padded with empty fields; a longer one is kept. */
  function Pad(parts: seq<string>): (r: seq<string>)
    ensures |r| >= FieldCount && |r| >= |parts|
    ensures forall k :: 0 <= k < |parts| ==> r[k] == parts[k]
    ensures forall k :: |parts| <= k < |r| ==> r[k] == []
  {
    if |parts| < FieldCount then parts + seq(FieldCount - |parts|, _ => []) else parts
  }

  /** Internship names as the nullable entries the record holds; parsed entries are never null. */
  function Present(names: seq<string>): (r: seq<Option<string>>)
    ensures |r| == |names| && forall k :: 0 <= k < |r| ==> r[k] == Some(names[k])
  {
    seq(|names|, k requires 0 <= k < |names| => Some(names[k]))
  }

  /**
   * The record of one content line: the line split on ',' keeping empty
   * fields, padded to eight fields, then name, age, gender, year, major,
   * gpa, roommate preferences and internships in that order.
   */
  function ParseRecord(line: string): (s: Student)
    ensures Text.IsTrimmed(s.name) && ',' !in s.name
    ensures s.major.Some? && Text.IsTrimmed(s.major.value) && ',' !in s.major.value
    ensures forall k :: 0 <= k < |s.prefs| ==> IsToken(s.prefs[k]) && ',' !in s.prefs[k]
    ensures forall k :: 0 <= k < |s.internships| ==>
              s.internships[k].Some? && IsToken(s.internships[k].value) && ',' !in s.internships[k].value
  {
    var parts := Text.Split(line, ',');
    var f := Pad(parts);
    assert forall k :: 0 <= k < FieldCount ==> ',' !in f[k];
    var name := Text.Trim(f[0]);
    assert ',' !in name by {
      if ',' in name {
        Text.TrimKeepsCharacters(f[0], ',');
      }
    }
    var major := Text.Trim(f[4]);
    assert ',' !in major by {
      if ',' in major {
        Text.TrimKeepsCharacters(f[4], ',');
      }
    }
    Create(name, ParseInteger(f[1]), Text.Trim(f[2]), ParseInteger(f[3]),
           Some(major), Gpa(Text.Trim(f[5])),
           Some(ParseListField(Some(f[6]))), Some(Present(ParseListField(Some(f[7])))))
  }

  /** A record depends only on the first eight padded fields of its line. */
  lemma SameFields(a: string, b: string)
    requires forall k :: 0 <= k < FieldCount ==> Pad(Text.Split(a, ','))[k] == Pad(Text.Split(b, ','))[k]
    ensures ParseRecord(a) == ParseRecord(b)
  {
    var fa, fb := Pad(Text.Split(a, ',')), Pad(Text.Split(b, ','));
    assert fa[0] == fb[0] && fa[1] == fb[1] && fa[2] == fb[2] && fa[3] == fb[3];
    assert fa[4] == fb[4] && fa[5] == fb[5] && fa[6] == fb[6] && fa[7] == fb[7];
  }

  /** A missing field reads exactly like an empty one: one more ',' at the end changes nothing. */
  lemma TrailingCommaIsEmptyField(line: string)
    ensures ParseRecord(line + [',']) == ParseRecord(line)
  {
    Text.SplitAppend(line, [], ',');
    assert line + [','] + [] == line + [','];
    assert Text.Split([], ',') == [[]];
    SameFields(line + [','], line);
  }

  /** Fields after the eighth are ignored. */
  lemma ExtraFieldsIgnored(line: string, extra: string)
    requires |Text.Split(line, ',')| >= FieldCount
    ensures ParseRecord(line + [','] + extra) == ParseRecord(line)
  {
    Text.SplitAppend(line, extra, ',');
    SameFields(line + [','] + extra, line);
  }

  /** Text that a field can carry unchanged through a line: trimmed and without ','. */
  predicate IsField(t: string) {
    Text.IsTrimmed(t) && ',' !in t
  }

  /** A record that can be written as one line and read back. */
  predicate Writable(s: Student) {
    && IsField(s.name) && IsField(s.gender) && IsField(s.gpa.text)
    && s.major.Some? && IsField(s.major.value)
    && (forall k :: 0 <= k < |s.prefs| ==> IsToken(s.prefs[k]) && ',' !in s.prefs[k])
    && (forall k :: 0 <= k < |s.internships| ==>
          s.internships[k].Some? && IsToken(s.internships[k].value) && ',' !in s.internships[k].value)
  }

  /** The internship names of entries that are all present. */
  function Names(xs: seq<Option<string>>): (r: seq<string>)
    requires forall k :: 0 <= k < |xs| ==> xs[k].Some?
    ensures Present(r) == xs
  {
    var r := seq(|xs|, k requires 0 <= k < |xs| => xs[k].value);
    assert Present(r) == xs;
    r
  }

  /** The eight field texts of a writable record, none of them holding a ','. */
  function Fields(s: Student): (f: seq<string>)
    requires Writable(s)
    ensures |f| == FieldCount && forall k :: 0 <= k < |f| ==> ',' !in f[k]
  {
    var names := Names(s.internships);
    Text.JoinAvoids(s.prefs, ';', ',');
    Text.JoinAvoids(names, ';', ',');
    [s.name, Format(s.age), s.gender, Format(s.year), s.major.value, s.gpa.text,
     Text.Join(s.prefs, ';'), Text.Join(names, ';')]
  }

  /**
   * The line format documented for the input file
   * (`name,age,gender,year,major,gpa,roommatePrefs,internships`, lists
   * joined with ';').
   */
  function Render(s: Student): (line: string)
    requires Writable(s)
    ensures Pad(Text.Split(line, ',')) == Fields(s)
  {
    Text.SplitJoin(Fields(s), ',');
    Text.Join(Fields(s), ',')
  }

  /** Round trip: every writable record is read back from its line unchanged. */
  lemma RecordRoundTrip(s: Student)
    requires Writable(s)
    ensures ParseRecord(Render(s)) == s
  {
    var f := Fields(s);
    var line := Render(s);
    assert ParseRecord(line)
        == Create(Text.Trim(f[0]), ParseInteger(f[1]), Text.Trim(f[2]), ParseInteger(f[3]),
                  Some(Text.Trim(f[4])), Gpa(Text.Trim(f[5])),
                  Some(ParseListField(Some(f[6]))), Some(Present(ParseListField(Some(f[7])))));
    TextFieldsReadBack(s);
    NumberFieldsReadBack(s);
    ListFieldsReadBack(s);
  }

  lemma TextFieldsReadBack(s: Student)
    requires Writable(s)
    ensures var f := Fields(s);
      && Text.Trim(f[0]) == s.name && Text.Trim(f[2]) == s.gender
      && Text.Trim(f[4]) == s.major.value && Text.Trim(f[5]) == s.gpa.text
  {
    var f := Fields(s);
    assert f[0] == s.name && f[2] == s.gender && f[4] == s.major.value && f[5] == s.gpa.text;
    Text.TrimOfTrimmed(f[0]);
    Text.TrimOfTrimmed(f[2]);
    Text.TrimOfTrimmed(f[4]);
    Text.TrimOfTrimmed(f[5]);
  }

  lemma NumberFieldsReadBack(s: Student)
    requires Writable(s)
    ensures var f := Fields(s); ParseInteger(f[1]) == s.age && ParseInteger(f[3]) == s.year
  {
    var f := Fields(s);
    assert f[1] == Format(s.age) && f[3] == Format(s.year);
    ParseIntegerOfFormat(s.age, [], []);
    ParseIntegerOfFormat(s.year, [], []);
  }

  lemma ListFieldsReadBack(s: Student)
    requires Writable(s)
    ensures var f := Fields(s);
      && ParseListField(Some(f[6])) == s.prefs
      && Present(ParseListField(Some(f[7]))) == s.internships
  {
    var f := Fields(s);
    var names := Names(s.internships);
    assert f[6] == Text.Join(s.prefs, ';') && f[7] == Text.Join(names, ';');
    ListFieldOfJoin(s.prefs);
    forall k | 0 <= k < |names|
      ensures IsToken(names[k])
    {
      assert Present(names)[k] == Some(names[k]) == s.internships[k];
    }
    ListFieldOfJoin(names);
  }

  // ---------------------------------------------------------------------
  // The line loop of parseStudents
  // ---------------------------------------------------------------------

  /** A trimmed line that yields nothing: blank, or a comment starting with '#'. */
  predicate Ignored(line: string) {
    line == [] || Text.StartsWith(line, "#")
  }

  /** The header test: the lower-cased line contains both "name" and "age". */
  predicate IsHeader(line: string) {
    Text.Contains(Text.Fold(line), "name") && Text.Contains(Text.Fold(line), "age")
  }

  /**
   * The loop from some line on; `first` is the `firstLine` flag, still set
   * while no content line has been seen.
   */
  function ParseLinesFrom(lines: seq<string>, first: bool): (r: seq<Student>)
    ensures |r| <= |lines|
  {
    if lines == [] then []
    else
      var line := Text.Trim(lines[0]);
      if Ignored(line) then ParseLinesFrom(lines[1..], first)
      else if first && IsHeader(line) then ParseLinesFrom(lines[1..], false)
      else [ParseRecord(line)] + ParseLinesFrom(lines[1..], false)
  }

  /** `parseStudents` without the file: the records of the given lines. */
  function ParseLines(lines: seq<string>): (r: seq<Student>)
    ensures |r| <= |lines|
  {
    ParseLinesFrom(lines, true)
  }

  /** The lines of `ts` that are neither blank nor comments, in order. */
  function Keep(ts: seq<string>): (c: seq<string>)
  {
    if ts == [] then []
    else (if Ignored(ts[0]) then [] else [ts[0]]) + Keep(ts[1..])
  }

  /** Reference definition: the trimmed lines that carry content, in order. */
  function Content(lines: seq<string>): (c: seq<string>)
  {
    Keep(TrimAll(lines))
  }

  /** Reference definition: the content lines without a leading header. */
  function DropHeader(c: seq<string>): seq<string> {
    if c != [] && IsHeader(c[0]) then c[1..] else c
  }

  /** Reference definition: one record per line. */
  function Records(c: seq<string>): seq<Student> {
    if c == [] then [] else [ParseRecord(c[0])] + Records(c[1..])
  }

  lemma {:induction false} RecordsLength(c: seq<string>)
    ensures |Records(c)| == |c|
  {
    if c != [] {
      RecordsLength(c[1..]);
    }
  }

  /** `Content` takes the lines one at a time, trimming each. */
  lemma ContentCons(lines: seq<string>)
    requires lines != []
    ensures var line := Text.Trim(lines[0]);
            Content(lines) == (if Ignored(line) then [] else [line]) + Content(lines[1..])
  {
    var t := TrimAll(lines);
    assert t[0] == Text.Trim(lines[0]);
    assert t[1..] == TrimAll(lines[1..]);
  }

  /** The record list grows by one record per line. */
  lemma RecordsCons(line: string, rest: seq<string>)
    ensures Records([line] + rest) == [ParseRecord(line)] + Records(rest)
  {
    assert ([line] + rest)[1..] == rest;
  }

  lemma {:induction false} ParseLinesFromIsRecords(lines: seq<string>, first: bool)
    ensures ParseLinesFrom(lines, first)
         == Records(if first then DropHeader(Content(lines)) else Content(lines))
  {
    if lines != [] {
      var line := Text.Trim(lines[0]);
      var rest := lines[1..];
      ContentCons(lines);
      if Ignored(line) {
        assert Content(lines) == Content(rest);
        assert ParseLinesFrom(lines, first) == ParseLinesFrom(rest, first);
        ParseLinesFromIsRecords(rest, first);
      } else {
        var c := [line] + Content(rest);
        assert Content(lines) == c;
        assert c[1..] == Content(rest);
        ParseLinesFromIsRecords(rest, false);
        if first && IsHeader(line) {
          assert ParseLinesFrom(lines, first) == ParseLinesFrom(rest, false);
          assert DropHeader(c) == Content(rest);
        } else {
          assert ParseLinesFrom(lines, first) == [ParseRecord(line)] + ParseLinesFrom(rest, false);
          assert (if first then DropHeader(c) else c) == c;
          RecordsCons(line, Content(rest));
        }
      }
    }
  }

  /**
   * The lines yield one record per content line, in order, except that a
   * first content line that looks like a header yields none.
   */
  lemma ParseLinesIsRecords(lines: seq<string>)
    ensures ParseLines(lines) == Records(DropHeader(Content(lines)))
    ensures |ParseLines(lines)|
         == |Content(lines)| - (if Content(lines) != [] && IsHeader(Content(lines)[0]) then 1 else 0)
  {
    ParseLinesFromIsRecords(lines, true);
    RecordsLength(DropHeader(Content(lines)));
  }

  lemma {:induction false} KeepAppend(a: seq<string>, b: seq<string>)
    ensures Keep(a + b) == Keep(a) + Keep(b)
  {
    if a == [] {
      assert a + b == b;
    } else {
      assert (a + b)[0] == a[0];
      assert (a + b)[1..] == a[1..] + b;
      KeepAppend(a[1..], b);
    }
  }

  lemma ContentAppend(a: seq<string>, b: seq<string>)
    ensures Content(a + b) == Content(a) + Content(b)
  {
    assert TrimAll(a + b) == TrimAll(a) + TrimAll(b);
    KeepAppend(TrimAll(a), TrimAll(b));
  }

  lemma ContentSkipsIgnored(a: seq<string>, line: string, b: seq<string>)
    requires Ignored(Text.Trim(line))
    ensures Content(a + [line] + b) == Content(a + b)
  {
    assert Content([line]) == [] by {
      assert TrimAll([line]) == [Text.Trim(line)];
      assert Keep([Text.Trim(line)]) == [] + Keep([]);
    }
    ContentAppend(a + [line], b);
    ContentAppend(a, [line]);
    ContentAppend(a, b);
  }

  /** Inserting a blank or comment line anywhere changes nothing. */
  lemma IgnoredLinesDoNotMatter(a: seq<string>, line: string, b: seq<string>)
    requires Ignored(Text.Trim(line))
    ensures ParseLines(a + [line] + b) == ParseLines(a + b)
  {
    ContentSkipsIgnored(a, line, b);
    ParseLinesIsRecords(a + [line] + b);
    ParseLinesIsRecords(a + b);
  }
}
