/** `get_epub_metadata`: reading author and title out of the text that the metadata tool
    prints, and sanitising both for use in a file name. The tool itself is not modelled:
    its output is a parameter, `None` when the tool could not be run. */
module Metadata {
  import opened Wrappers
  import opened Text
  import opened Jobs

  /** The characters `re.sub(r'[^\w\s-]', '', s)` keeps. */
  predicate Kept(c: char) { IsWordChar(c) || IsSpace(c) || c == '-' }

  /** `re.sub(r'[^\w\s-]', '', s)` */
  function KeepAllowed(s: string): (r: string)
    ensures forall i :: 0 <= i < |r| ==> Kept(r[i])
    ensures forall i :: 0 <= i < |r| ==> r[i] in s
    ensures (forall i :: 0 <= i < |s| ==> Kept(s[i])) ==> r == s
  {
    if |s| == 0 then ""
    else
      var rest := KeepAllowed(s[1..]);
      assert forall i :: 0 <= i < |rest| ==> rest[i] in s;
      if Kept(s[0]) then [s[0]] + rest else rest
  }

  /** The filter on one character: kept exactly when it is allowed. */
  lemma KeepAllowedOne(c: char)
    ensures KeepAllowed([c]) == if Kept(c) then [c] else []
  {
    assert [c][1..] == [];
  }

  /** The filter works character by character: it keeps the allowed characters of each
      part, in order. With `KeepAllowedOne` this determines `KeepAllowed` on every text. */
  lemma {:induction false} KeepAllowedConcat(a: string, b: string)
    ensures KeepAllowed(a + b) == KeepAllowed(a) + KeepAllowed(b)
    decreases |a|
  {
    if |a| == 0 {
      assert a + b == b;
    } else {
      assert (a + b)[0] == a[0];
      assert (a + b)[1..] == a[1..] + b;
      KeepAllowedConcat(a[1..], b);
    }
  }

  /** `re.sub(r'[^\w\s-]', '', s).strip().replace(' ', '_').lower()` */
  function Sanitize(s: string): string
  {
    Lower(ReplaceChar(Strip(KeepAllowed(s)), ' ', '_'))
  }

  /** What a sanitised name looks like: word characters, hyphens and non-space whitespace
      only, no upper case, no space, and no whitespace at either end. */
  ghost predicate Sanitized(r: string)
  {
    && (forall i :: 0 <= i < |r| ==> Kept(r[i]) && !IsUpper(r[i]) && r[i] != ' ')
    && (|r| > 0 ==> !IsSpace(r[0]) && !IsSpace(r[|r| - 1]))
  }

  /** One kept character after the space replacement and lower-casing. */
  lemma SanitizeChar(c: char)
    requires Kept(c)
    ensures var d := LowerChar(if c == ' ' then '_' else c);
      Kept(d) && !IsUpper(d) && d != ' ' && (IsSpace(d) ==> IsSpace(c))
  {
  }

  lemma {:induction false} SanitizeShape(s: string)
    ensures Sanitized(Sanitize(s))
  {
    var k := KeepAllowed(s);
    var t := Strip(k);
    var u := ReplaceChar(t, ' ', '_');
    var r := Lower(u);
    forall i | 0 <= i < |r| ensures Kept(r[i]) && !IsUpper(r[i]) && r[i] != ' ' && (IsSpace(r[i]) ==> IsSpace(t[i])) {
      var j :| 0 <= j < |k| && k[j] == t[i];
      SanitizeChar(t[i]);
      assert r[i] == LowerChar(if t[i] == ' ' then '_' else t[i]);
    }
  }

  lemma KeepAllowedFixes(r: string)
    requires Sanitized(r)
    ensures KeepAllowed(r) == r
  {
  }

  lemma ReplaceFixes(r: string)
    requires Sanitized(r)
    ensures ReplaceChar(r, ' ', '_') == r
  {
    var u := ReplaceChar(r, ' ', '_');
    assert forall i :: 0 <= i < |r| ==> u[i] == r[i];
  }

  lemma LowerFixes(r: string)
    requires Sanitized(r)
    ensures Lower(r) == r
  {
    var u := Lower(r);
    assert forall i :: 0 <= i < |r| ==> u[i] == r[i];
  }

  /** Sanitising a sanitised name changes nothing. */
  lemma {:induction false} SanitizeIdempotent(s: string)
    ensures Sanitize(Sanitize(s)) == Sanitize(s)
  {
    var r := Sanitize(s);
    SanitizeShape(s);
    KeepAllowedFixes(r);
    assert Strip(r) == r;
    ReplaceFixes(r);
    LowerFixes(r);
  }

  /** The author field's clean-up: cut at the first comma, then at the first parenthesis. */
  function AuthorName(a: string): (r: string)
    ensures ',' in a ==> ',' !in r
    ensures '(' !in r
  {
    var first := if ',' in a then Strip(Before(a, ',')) else a;
    if '(' in first then Strip(Before(first, '(')) else first
  }

  /** The author is cut at whichever of `,` and `(` comes first and stripped there; an
      author with neither is taken as it is. */
  lemma AuthorNameValue(a: string)
    ensures ',' !in a && '(' !in a ==> AuthorName(a) == a
    ensures '(' in Before(a, ',') ==> AuthorName(a) == Strip(Before(a, '('))
    ensures ',' in a && '(' !in Before(a, ',') ==> AuthorName(a) == Strip(Before(a, ','))
  {
    if ',' in a && '(' in Before(a, ',') {
      BeforeNested(a, ',', '(');
      StripBefore(Before(a, ','), '(');
    }
  }

  /** A `Title`/`Author(s)` line that Python cannot split at a colon (`IndexError`). */
  ghost predicate Malformed(line: string)
  {
    (StartsWith(line, "Title") || StartsWith(line, "Author(s)")) && ':' !in line
  }

  /** The loop over the listing's lines; `None` stands for the exception a malformed
      line raises, which `get_epub_metadata` turns into the defaults. */
  function ScanLines(lines: seq<string>, author: string, title: string): Option<Meta>
    decreases |lines|
  {
    if |lines| == 0 then Some(Meta(author, title))
    else
      var line := lines[0];
      if StartsWith(line, "Title") then
        if ':' in line then ScanLines(lines[1..], author, Strip(After(line, ':'))) else None
      else if StartsWith(line, "Author(s)") then
        if ':' in line then ScanLines(lines[1..], AuthorName(Strip(After(line, ':'))), title) else None
      else ScanLines(lines[1..], author, title)
  }

  /** The title and author a line leaves behind for the rest of the scan. */
  function TitleAfter(line: string, title: string): string
  {
    if StartsWith(line, "Title") && ':' in line then Strip(After(line, ':')) else title
  }

  function AuthorAfter(line: string, author: string): string
  {
    if !StartsWith(line, "Title") && StartsWith(line, "Author(s)") && ':' in line
    then AuthorName(Strip(After(line, ':'))) else author
  }

  lemma ScanStep(lines: seq<string>, author: string, title: string)
    requires |lines| > 0 && !Malformed(lines[0])
    ensures ScanLines(lines, author, title)
         == ScanLines(lines[1..], AuthorAfter(lines[0], author), TitleAfter(lines[0], title))
  {
  }

  /** The scan fails exactly when some line is malformed. */
  lemma {:induction false} ScanFails(lines: seq<string>, author: string, title: string)
    ensures ScanLines(lines, author, title).None? <==> exists k :: 0 <= k < |lines| && Malformed(lines[k])
    decreases |lines|
  {
    if |lines| > 0 {
      var line := lines[0];
      var t := TitleAfter(line, title);
      var a := AuthorAfter(line, author);
      if !Malformed(line) {
        ScanStep(lines, author, title);
        ScanFails(lines[1..], a, t);
        if exists k :: 0 <= k < |lines| && Malformed(lines[k]) {
          var k :| 0 <= k < |lines| && Malformed(lines[k]);
          assert lines[1..][k - 1] == lines[k];
        }
        if exists k :: 0 <= k < |lines[1..]| && Malformed(lines[1..][k]) {
          var k :| 0 <= k < |lines[1..]| && Malformed(lines[1..][k]);
          assert lines[k + 1] == lines[1..][k];
        }
      }
    }
  }

  /** `line.startswith('Title')` */
  predicate TitleLine(line: string) { StartsWith(line, "Title") }

  /** A line the loop treats as the author line: `elif line.startswith('Author(s)')`. */
  predicate AuthorLine(line: string) { !StartsWith(line, "Title") && StartsWith(line, "Author(s)") }

  /** `line.split(':', 1)[1].strip()`; a line without a colon is malformed, and what it
      would give never matters. */
  function FieldValue(line: string): string
  {
    if ':' in line then Strip(After(line, ':')) else ""
  }

  /** The author an author line gives. */
  function AuthorValue(line: string): string { AuthorName(FieldValue(line)) }

  /** `v` is what the LAST line that `isLine` picks out gives through `value`, or `v0` when
      no line is picked out. */
  ghost predicate LastIs(lines: seq<string>, isLine: string -> bool, value: string -> string, v0: string, v: string)
  {
    || (v == v0 && forall k :: 0 <= k < |lines| ==> !isLine(lines[k]))
    || exists k :: 0 <= k < |lines| && isLine(lines[k]) && v == value(lines[k])
         && forall k' :: k < k' < |lines| ==> !isLine(lines[k'])
  }

  /** The last line that gives a value is the first one when no later line does. */
  lemma LastIsStep(lines: seq<string>, isLine: string -> bool, value: string -> string, v0: string, v: string)
    requires |lines| > 0
    requires LastIs(lines[1..], isLine, value, if isLine(lines[0]) then value(lines[0]) else v0, v)
    ensures LastIs(lines, isLine, value, v0, v)
  {
    var rest := lines[1..];
    var v1 := if isLine(lines[0]) then value(lines[0]) else v0;
    if v == v1 && forall k :: 0 <= k < |rest| ==> !isLine(rest[k]) {
      forall k | 1 <= k < |lines| ensures !isLine(lines[k]) {
        assert lines[k] == rest[k - 1];
      }
      if isLine(lines[0]) {
        assert isLine(lines[0]) && v == value(lines[0]);
      }
    } else {
      var k :| 0 <= k < |rest| && isLine(rest[k]) && v == value(rest[k])
               && forall k' :: k < k' < |rest| ==> !isLine(rest[k']);
      assert lines[k + 1] == rest[k];
      forall k' | k + 1 < k' < |lines| ensures !isLine(lines[k']) {
        assert lines[k'] == rest[k' - 1];
      }
    }
  }

  /** The title the scan reports comes from the last `Title` line, and the author from the
      last `Author(s)` line, each falling back to its initial value. */
  lemma {:induction false} ScanLast(lines: seq<string>, author: string, title: string)
    requires ScanLines(lines, author, title).Some?
    ensures LastIs(lines, TitleLine, FieldValue, title, ScanLines(lines, author, title).value.title)
    ensures LastIs(lines, AuthorLine, AuthorValue, author, ScanLines(lines, author, title).value.author)
    decreases |lines|
  {
    if |lines| > 0 {
      var m := ScanLines(lines, author, title).value;
      var t := TitleAfter(lines[0], title);
      var a := AuthorAfter(lines[0], author);
      ScanStep(lines, author, title);
      ScanLast(lines[1..], a, t);
      assert t == if TitleLine(lines[0]) then FieldValue(lines[0]) else title;
      assert a == if AuthorLine(lines[0]) then AuthorValue(lines[0]) else author;
      LastIsStep(lines, TitleLine, FieldValue, title, m.title);
      LastIsStep(lines, AuthorLine, AuthorValue, author, m.author);
    }
  }

  /** `get_epub_metadata(input_path)` given the tool's output: both names come out
      sanitised, and any failure yields the defaults. */
  function EpubMetadata(output: Option<string>): (m: Meta)
    ensures output.None? ==> m == DefaultMeta
  {
    match output
    case None => DefaultMeta
    case Some(o) => MetaOfLines(Split(Strip(o), '\n'))
  }

  /** The names read from the listing's lines, sanitised; the defaults when a line is
      malformed. */
  function MetaOfLines(lines: seq<string>): Meta
  {
    match ScanLines(lines, "unknown", "ebook")
    case None => DefaultMeta
    case Some(raw) => Meta(Sanitize(raw.author), Sanitize(raw.title))
  }

  /** The fallback names are already sanitised. */
  lemma DefaultsSanitized()
    ensures Sanitized(DefaultMeta.author) && Sanitized(DefaultMeta.title)
  {
    assert DefaultMeta.author == "unknown" && DefaultMeta.title == "ebook";
  }

  /** Whatever the tool prints, both names are sanitised. */
  lemma EpubMetadataSanitized(output: Option<string>)
    ensures Sanitized(EpubMetadata(output).author) && Sanitized(EpubMetadata(output).title)
  {
    DefaultsSanitized();
    if output.Some? {
      var scan := ScanLines(Split(Strip(output.value), '\n'), "unknown", "ebook");
      if scan.Some? {
        SanitizeShape(scan.value.author);
        SanitizeShape(scan.value.title);
      }
    }
  }

  /** What a listing with these lines yields: the defaults when some `Title`/`Author(s)`
      line has no colon, otherwise the sanitised title of the last `Title` line and the
      sanitised, cleaned author of the last `Author(s)` line, `ebook` and `unknown`
      standing in for a missing one. */
  ghost predicate ListingYields(lines: seq<string>, m: Meta)
  {
    && ((exists k :: 0 <= k < |lines| && Malformed(lines[k])) ==> m == DefaultMeta)
    && ((forall k :: 0 <= k < |lines| ==> !Malformed(lines[k])) ==>
          && (exists t :: LastIs(lines, TitleLine, FieldValue, "ebook", t) && m.title == Sanitize(t))
          && (exists a :: LastIs(lines, AuthorLine, AuthorValue, "unknown", a) && m.author == Sanitize(a)))
  }

  /** `get_epub_metadata` reads the listing as described by `ListingYields`. */
  lemma EpubMetadataRead(o: string)
    ensures ListingYields(Split(Strip(o), '\n'), EpubMetadata(Some(o)))
  {
    MetaOfLinesRead(Split(Strip(o), '\n'));
  }

  lemma MetaOfLinesRead(lines: seq<string>)
    ensures ListingYields(lines, MetaOfLines(lines))
  {
    ScanFails(lines, "unknown", "ebook");
    var scan := ScanLines(lines, "unknown", "ebook");
    if scan.Some? {
      ScanLast(lines, "unknown", "ebook");
      var raw := scan.value;
      assert LastIs(lines, TitleLine, FieldValue, "ebook", raw.title);
      assert LastIs(lines, AuthorLine, AuthorValue, "unknown", raw.author);
    }
  }
}
