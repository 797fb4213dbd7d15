/** The three filename sanitisers: the general one used for stored files,
    the stricter one used to build storage paths for tracks, and the one
    used when exporting a project. Go strings are byte strings; each `char`
    here stands for one byte, so lengths are byte lengths. */
module Sanitize {
  import Text

  // ---------------------------------------------------------------------------
  // Per-character replacement

  /** Every character `c` of `s` replaced by the string `f(c)`, as
      `strings.ReplaceAll` with a one-byte pattern, a `strings.Replacer`
      whose patterns are single bytes, and `ReplaceAllString` of a regexp
      matching one byte at a time (with `f(c)` the template expanded for
      the match `c`) all do. */
  function ReplaceEach(s: string, f: char -> string): string {
    if s == [] then [] else f(s[0]) + ReplaceEach(s[1..], f)
  }

  /** `ReplaceEach` works character by character: it distributes over
      concatenation. */
  lemma {:induction false} ReplaceEachAppend(a: string, b: string, f: char -> string)
    ensures ReplaceEach(a + b, f) == ReplaceEach(a, f) + ReplaceEach(b, f)
  {
    if a != [] {
      assert (a + b)[1..] == a[1..] + b;
      ReplaceEachAppend(a[1..], b, f);
    } else {
      assert a + b == b;
    }
  }

  /** When the replacement of no character of `s` holds a character that
      `bad` flags, the result holds none. */
  lemma {:induction false} ReplaceEachAvoids(s: string, f: char -> string, bad: char -> bool)
    requires forall i :: 0 <= i < |s| ==> forall j :: 0 <= j < |f(s[i])| ==> !bad(f(s[i])[j])
    ensures forall j :: 0 <= j < |ReplaceEach(s, f)| ==> !bad(ReplaceEach(s, f)[j])
  {
    if s != [] {
      assert forall i :: 0 <= i < |s[1..]| ==> s[1..][i] == s[i + 1];
      ReplaceEachAvoids(s[1..], f, bad);
      var head := f(s[0]);
      var tail := ReplaceEach(s[1..], f);
      assert ReplaceEach(s, f) == head + tail;
      forall j | 0 <= j < |head + tail|
        ensures !bad((head + tail)[j])
      {
        if j < |head| {
          assert (head + tail)[j] == head[j];
        } else {
          assert (head + tail)[j] == tail[j - |head|];
        }
      }
    }
  }

  /** A replacement by single characters keeps the length and maps each
      position on its own. */
  lemma {:induction false} ReplaceEachPointwise(s: string, f: char -> string)
    requires forall c :: |f(c)| == 1
    ensures |ReplaceEach(s, f)| == |s|
    ensures forall i :: 0 <= i < |s| ==> ReplaceEach(s, f)[i] == f(s[i])[0]
  {
    if s != [] {
      ReplaceEachPointwise(s[1..], f);
      assert |f(s[0])| == 1;
      var r := ReplaceEach(s, f);
      assert r == f(s[0]) + ReplaceEach(s[1..], f);
      forall i | 0 <= i < |s|
        ensures r[i] == f(s[i])[0]
      {
        if i > 0 {
          assert r[i] == ReplaceEach(s[1..], f)[i - 1];
          assert s[1..][i - 1] == s[i];
        }
      }
    }
  }

  /** Replacements of at most one character never lengthen the string. */
  lemma {:induction false} ReplaceEachShrinks(s: string, f: char -> string)
    requires forall c :: |f(c)| <= 1
    ensures |ReplaceEach(s, f)| <= |s|
  {
    if s != [] {
      assert |f(s[0])| <= 1;
      ReplaceEachShrinks(s[1..], f);
    }
  }

  /** Characters `f` leaves alone pass through untouched. */
  lemma {:induction false} ReplaceEachIdentity(s: string, f: char -> string)
    requires forall i :: 0 <= i < |s| ==> f(s[i]) == [s[i]]
    ensures ReplaceEach(s, f) == s
  {
    if s != [] {
      assert f(s[0]) == [s[0]];
      ReplaceEachIdentity(s[1..], f);
    }
  }

  // ---------------------------------------------------------------------------
  // fileutil.SanitizeFilename

  datatype SanitizeOptions = SanitizeOptions(replacement: string, maxLength: int)

  const DefaultSanitizeOptions := SanitizeOptions("_", 50)

  /** The characters the regexp `[<>:"/\\|?*\x00-\x1f]` matches. */
  predicate IsInvalidFilenameChar(c: char) {
    c in "<>:\"/\\|?*" || c < ' '
  }

  predicate IsTrimmed(c: char) {
    c == '.' || c == ' '
  }

  // ---------------------------------------------------------------------------
  // Template expansion of Regexp.ReplaceAllString

  /** The characters of a `$name` reference: letters, digits and '_'
      (ASCII only). */
  predicate IsNameChar(c: char) {
    ('a' <= c <= 'z') || ('A' <= c <= 'Z') || Text.IsDigit(c) || c == '_'
  }

  /** The length of the longest prefix of name characters. */
  function NameLength(s: string): (n: nat)
    ensures n <= |s|
    ensures forall i :: 0 <= i < n ==> IsNameChar(s[i])
    ensures n < |s| ==> !IsNameChar(s[n])
  {
    if s == [] || !IsNameChar(s[0]) then 0 else 1 + NameLength(s[1..])
  }

  /** What follows a '$': a reference `name` or `{name}` and the rest of
      the template, or nothing usable. */
  datatype Reference = Malformed | Reference(name: string, rest: string)

  /** The reference after a '$', read as `regexp.extract` reads it: an
      empty name or a missing closing brace is malformed. */
  function Extract(s: string): (r: Reference)
    ensures r.Reference? ==> r.name != "" && |r.rest| < |s|
    ensures r.Reference? ==> forall i :: 0 <= i < |r.name| ==> IsNameChar(r.name[i])
    ensures s != [] && s[0] != '{' && IsNameChar(s[0]) ==> r.Reference? && r.name + r.rest == s
  {
    var brace := s != [] && s[0] == '{';
    var body := if brace then s[1..] else s;
    var i := NameLength(body);
    if i == 0 then Malformed
    else if brace && (i == |body| || body[i] != '}') then Malformed
    else Reference(body[..i], if brace then body[i + 1..] else body[i..])
  }

  /** The template `t` expanded for the match `m` of a pattern with no
      groups: `$$` is '$'; `$0` and `${0}` are the match; any other
      reference (a group number or name the pattern lacks, or a number
      with a leading zero) is empty; a malformed '$' stays as it is. */
  function Expand(t: string, m: string): (r: string)
    decreases |t|
  {
    if t == [] then []
    else if t[0] != '$' then [t[0]] + Expand(t[1..], m)
    else
      var after := t[1..];
      if after != [] && after[0] == '$' then "$" + Expand(after[1..], m)
      else
        var ref := Extract(after);
        if ref.Malformed? then "$" + Expand(after, m)
        else (if ref.name == "0" then m else "") + Expand(ref.rest, m)
  }

  /** Whether expanding `t` inserts the match somewhere. */
  predicate InsertsMatch(t: string)
    decreases |t|
  {
    if t == [] then false
    else if t[0] != '$' then InsertsMatch(t[1..])
    else
      var after := t[1..];
      if after != [] && after[0] == '$' then InsertsMatch(after[1..])
      else
        var ref := Extract(after);
        if ref.Malformed? then InsertsMatch(after)
        else ref.name == "0" || InsertsMatch(ref.rest)
  }

  /** A template without '$' is taken literally. */
  lemma {:induction false} ExpandLiteral(t: string, m: string)
    requires '$' !in t
    ensures Expand(t, m) == t
  {
    if t != [] {
      assert t[0] != '$';
      assert '$' !in t[1..];
      ExpandLiteral(t[1..], m);
    }
  }

  /** A template that never inserts the match expands to characters of
      the template only. */
  lemma {:induction false} ExpandOnlyFromTemplate(t: string, m: string)
    requires !InsertsMatch(t)
    ensures forall j :: 0 <= j < |Expand(t, m)| ==> Expand(t, m)[j] in t
  {
    if t != [] {
      var r := Expand(t, m);
      if t[0] != '$' {
        ExpandOnlyFromTemplate(t[1..], m);
        SuffixChars(t, 1);
        ConsChars(t[0], Expand(t[1..], m), t);
      } else {
        var after := t[1..];
        if after != [] && after[0] == '$' {
          ExpandOnlyFromTemplate(after[1..], m);
          SuffixChars(t, 2);
          ConsChars('$', Expand(after[1..], m), t);
        } else {
          var ref := Extract(after);
          if ref.Malformed? {
            ExpandOnlyFromTemplate(after, m);
            SuffixChars(t, 1);
            ConsChars('$', Expand(after, m), t);
          } else {
            ExpandOnlyFromTemplate(ref.rest, m);
            assert ref.rest == t[|t| - |ref.rest|..] by { ExtractRest(after); }
            SuffixChars(t, |t| - |ref.rest|);
            assert r == Expand(ref.rest, m);
          }
        }
      }
    }
  }

  /** A clean template that never inserts the match expands to a clean
      text, whatever the match. */
  lemma ExpandClean(t: string, m: string)
    requires IsCleanName(t) && !InsertsMatch(t)
    ensures IsCleanName(Expand(t, m))
  {
    ExpandOnlyFromTemplate(t, m);
  }

  /** The rest of a reference is a suffix of what it was read from. */
  lemma ExtractRest(s: string)
    requires Extract(s).Reference?
    ensures Extract(s).rest == s[|s| - |Extract(s).rest|..]
  {
  }

  lemma SuffixChars(t: string, k: nat)
    requires k <= |t|
    ensures forall j :: 0 <= j < |t[k..]| ==> t[k..][j] in t
  {
    forall j | 0 <= j < |t[k..]|
      ensures t[k..][j] in t
    {
      assert t[k..][j] == t[k + j];
    }
  }

  lemma ConsChars(c: char, s: string, t: string)
    requires c in t
    requires forall j :: 0 <= j < |s| ==> s[j] in t
    ensures forall j :: 0 <= j < |[c] + s| ==> ([c] + s)[j] in t
  {
    forall j | 0 <= j < |[c] + s|
      ensures ([c] + s)[j] in t
    {
      if j > 0 {
        assert ([c] + s)[j] == s[j - 1];
      }
    }
  }

  /** The regexp step: each invalid character replaced by the template
      expanded for it. */
  function ReplaceInvalid(name: string, repl: string): string {
    ReplaceEach(name, c => if IsInvalidFilenameChar(c) then Expand(repl, [c]) else [c])
  }

  /** The `strings.ReplaceAll` step: each space replaced literally. */
  function ReplaceSpaces(s: string, repl: string): string {
    ReplaceEach(s, c => if c == ' ' then repl else [c])
  }

  /** `SanitizeFilename(name, opts)`; callers that pass no options get
      `DefaultSanitizeOptions`. */
  function SanitizeFilename(name: string, opts: SanitizeOptions): (r: string)
    ensures r != ""
    ensures opts.maxLength > 0 ==> |r| <= opts.maxLength
    ensures !IsTrimmed(r[0])
  {
    var repl := opts.replacement;
    var invalidReplaced := ReplaceInvalid(name, repl);
    var spacesReplaced := ReplaceSpaces(invalidReplaced, repl);
    var trimmed := Text.TrimBy(spacesReplaced, IsTrimmed);
    var named := if trimmed == "" then "untitled" else trimmed;
    if opts.maxLength > 0 && |named| > opts.maxLength then named[..opts.maxLength] else named
  }

  /** No invalid character and no space. */
  predicate IsCleanName(s: string) {
    forall j :: 0 <= j < |s| ==> !IsInvalidFilenameChar(s[j]) && s[j] != ' '
  }

  /** Trimming keeps a contiguous piece of the string, so it keeps it clean. */
  lemma TrimKeepsClean(s: string)
    requires IsCleanName(s)
    ensures IsCleanName(Text.TrimBy(s, IsTrimmed))
  {
    var left := Text.TrimLeftBy(s, IsTrimmed);
    assert IsCleanName(left) by {
      assert forall j :: 0 <= j < |left| ==> left[j] == s[|s| - |left| + j];
    }
    var both := Text.TrimRightBy(left, IsTrimmed);
    assert forall j :: 0 <= j < |both| ==> both[j] == left[j];
  }

  /** With a replacement that is itself clean and never re-inserts the
      match, the result holds no invalid character and no space. */
  lemma SanitizeFilenameClean(name: string, opts: SanitizeOptions)
    requires IsCleanName(opts.replacement) && !InsertsMatch(opts.replacement)
    ensures IsCleanName(SanitizeFilename(name, opts))
  {
    var step1 := ReplaceInvalid(name, opts.replacement);
    InvalidReplacedValid(name, opts.replacement);
    var step2 := ReplaceSpaces(step1, opts.replacement);
    SpacesReplacedClean(step1, opts.replacement);
    TrimKeepsClean(step2);
  }

  lemma InvalidReplacedValid(name: string, repl: string)
    requires IsCleanName(repl) && !InsertsMatch(repl)
    ensures forall j :: 0 <= j < |ReplaceInvalid(name, repl)| ==> !IsInvalidFilenameChar(ReplaceInvalid(name, repl)[j])
  {
    var f1 := c => if IsInvalidFilenameChar(c) then Expand(repl, [c]) else [c];
    forall i | 0 <= i < |name|
      ensures forall j :: 0 <= j < |f1(name[i])| ==> !IsInvalidFilenameChar(f1(name[i])[j])
    {
      if IsInvalidFilenameChar(name[i]) {
        ExpandClean(repl, [name[i]]);
      }
    }
    ReplaceEachAvoids(name, f1, IsInvalidFilenameChar);
  }

  lemma SpacesReplacedClean(s: string, repl: string)
    requires IsCleanName(repl)
    requires forall j :: 0 <= j < |s| ==> !IsInvalidFilenameChar(s[j])
    ensures IsCleanName(ReplaceSpaces(s, repl))
  {
    var f2 := c => if c == ' ' then repl else [c];
    ReplaceEachAvoids(s, f2, c => IsInvalidFilenameChar(c) || c == ' ');
  }

  /** The defaults give at most 50 bytes with no invalid character and no
      space. */
  lemma DefaultSanitizeBounds(name: string)
    ensures var r := SanitizeFilename(name, DefaultSanitizeOptions);
            1 <= |r| <= 50 && IsCleanName(r)
  {
    assert !InsertsMatch("_");
    SanitizeFilenameClean(name, DefaultSanitizeOptions);
  }

  /** The replacement "$0" puts every invalid character back:
      `ReplaceAllString` expands its replacement as a template. */
  lemma MatchTemplateKeepsInvalid()
    ensures SanitizeFilename("a/b", SanitizeOptions("$0", 50)) == "a/b"
  {
    assert Extract("0") == Reference("0", "");
    SlashReplaced("$0", "/");
  }

  /** A reference to a group the pattern lacks, such as "$x", expands to
      nothing, so the invalid character is deleted. */
  lemma UnknownTemplateDeletes()
    ensures SanitizeFilename("a/b", SanitizeOptions("$x", 50)) == "ab"
  {
    assert Extract("x") == Reference("x", "");
    SlashReplaced("$x", "");
  }

  /** "$$" stands for one '$'. */
  lemma DollarTemplate()
    ensures SanitizeFilename("a/b", SanitizeOptions("$$", 50)) == "a$b"
  {
    assert Expand("$$", "/") == "$" + Expand("", "/");
    SlashReplaced("$$", "$");
  }

  /** "a/b" sanitised with a replacement that expands to `e` for the
      match "/". */
  lemma SlashReplaced(repl: string, e: string)
    requires Expand(repl, "/") == e && ' ' !in e && |e| <= 48
    ensures SanitizeFilename("a/b", SanitizeOptions(repl, 50)) == "a" + e + "b"
  {
    var step1 := "a" + e + "b";
    SlashExpanded(repl, e);
    assert ' ' !in step1;
    NoSpaceNoChange(step1, repl);
    Text.TrimByNoOp(step1, IsTrimmed);
  }

  lemma SlashExpanded(repl: string, e: string)
    requires Expand(repl, "/") == e
    ensures ReplaceInvalid("a/b", repl) == "a" + e + "b"
  {
    var f1 := c => if IsInvalidFilenameChar(c) then Expand(repl, [c]) else [c];
    assert "a/b" == ['a'] + ['/'] + ['b'];
    ReplaceEachAppend(['a'] + ['/'], ['b'], f1);
    ReplaceEachAppend(['a'], ['/'], f1);
  }

  lemma NoSpaceNoChange(s: string, repl: string)
    requires ' ' !in s
    ensures ReplaceSpaces(s, repl) == s
  {
    ReplaceEachIdentity(s, c => if c == ' ' then repl else [c]);
  }

  lemma NoInvalidNoChange(s: string, repl: string)
    requires forall j :: 0 <= j < |s| ==> !IsInvalidFilenameChar(s[j])
    ensures ReplaceInvalid(s, repl) == s
  {
    ReplaceEachIdentity(s, c => if IsInvalidFilenameChar(c) then Expand(repl, [c]) else [c]);
  }

  /** A name that is already clean and fits is returned as it is. */
  lemma SanitizeFilenameKeepsClean(name: string, opts: SanitizeOptions)
    requires name != [] && !IsTrimmed(name[0]) && !IsTrimmed(name[|name| - 1])
    requires IsCleanName(name)
    requires opts.maxLength <= 0 || |name| <= opts.maxLength
    ensures SanitizeFilename(name, opts) == name
  {
    NoInvalidNoChange(name, opts.replacement);
    NoSpaceNoChange(name, opts.replacement);
    Text.TrimByNoOp(name, IsTrimmed);
  }

  /** Nothing but dots and spaces gives "untitled" (cut to the maximum
      length). */
  lemma DotsAndSpacesGiveUntitled(name: string, opts: SanitizeOptions)
    requires forall j :: 0 <= j < |name| ==> IsTrimmed(name[j])
    requires forall j :: 0 <= j < |opts.replacement| ==> IsTrimmed(opts.replacement[j])
    ensures var r := SanitizeFilename(name, opts);
            r == (if 0 < opts.maxLength < 8 then "untitled"[..opts.maxLength] else "untitled")
  {
    var repl := opts.replacement;
    var f2 := c => if c == ' ' then repl else [c];
    NoInvalidNoChange(name, repl);
    var step2 := ReplaceSpaces(name, repl);
    ReplaceEachAvoids(name, f2, c => !IsTrimmed(c));
    var left := Text.TrimLeftBy(step2, IsTrimmed);
    assert left == [];
  }

  // ---------------------------------------------------------------------------
  // tracks.sanitizeFilenameForPath

  /** The characters `sanitizeFilenameForPath` turns into '_'. */
  predicate IsPathUnsafe(c: char) {
    c in " /\\:*?\"<>|."
  }

  const PathNameLimit := 50

  /** `sanitizeFilenameForPath`: spaces, then the other unsafe characters,
      become '_', and the result is cut to 50 bytes. */
  function SanitizeFilenameForPath(name: string): (r: string)
    ensures |r| <= PathNameLimit
    ensures forall j :: 0 <= j < |r| ==> !IsPathUnsafe(r[j])
  {
    var f1 := c => if c == ' ' then "_" else [c];
    var f2 := c => if IsPathUnsafe(c) then "_" else [c];
    var spaced := ReplaceEach(name, f1);
    var replaced := ReplaceEach(spaced, f2);
    ReplaceEachAvoids(spaced, f2, IsPathUnsafe);
    if |replaced| > PathNameLimit then replaced[..PathNameLimit] else replaced
  }

  /** The result is the first 50 bytes of the name with every unsafe
      byte turned into '_' and every other byte kept. */
  lemma SanitizeFilenameForPathPointwise(name: string)
    ensures var r := SanitizeFilenameForPath(name);
            && |r| == (if |name| < PathNameLimit then |name| else PathNameLimit)
            && forall i :: 0 <= i < |r| ==> r[i] == (if IsPathUnsafe(name[i]) then '_' else name[i])
  {
    var f1 := c => if c == ' ' then "_" else [c];
    var f2 := c => if IsPathUnsafe(c) then "_" else [c];
    var spaced := ReplaceEach(name, f1);
    ReplaceEachPointwise(name, f1);
    ReplaceEachPointwise(spaced, f2);
  }

  // ---------------------------------------------------------------------------
  // projects.sanitizeFilename (export)

  predicate IsExportDashed(c: char) {
    c in "/\\:*|"
  }

  predicate IsExportDropped(c: char) {
    c in "?\"<>"
  }

  /** The export sanitiser: / \ : * | become '-', and ? " < > are dropped. */
  function SanitizeExportName(name: string): (r: string)
    ensures |r| <= |name|
    ensures forall j :: 0 <= j < |r| ==> !IsExportDashed(r[j]) && !IsExportDropped(r[j])
  {
    var f := c => if IsExportDashed(c) then "-" else if IsExportDropped(c) then "" else [c];
    ReplaceEachShrinks(name, f);
    ReplaceEachAvoids(name, f, c => IsExportDashed(c) || IsExportDropped(c));
    ReplaceEach(name, f)
  }

  /** Reference definition: drop the removed characters, then map the
      dashed ones. */
  function DropThenDash(name: string): string {
    if name == [] then []
    else if IsExportDropped(name[0]) then DropThenDash(name[1..])
    else [if IsExportDashed(name[0]) then '-' else name[0]] + DropThenDash(name[1..])
  }

  lemma {:induction false} SanitizeExportNameIsDropThenDash(name: string)
    ensures SanitizeExportName(name) == DropThenDash(name)
  {
    if name != [] {
      SanitizeExportNameIsDropThenDash(name[1..]);
    }
  }

  /** A name without any of the nine characters is kept as it is. */
  lemma SanitizeExportNameKeepsOthers(name: string)
    requires forall j :: 0 <= j < |name| ==> !IsExportDashed(name[j]) && !IsExportDropped(name[j])
    ensures SanitizeExportName(name) == name
  {
    var f := c => if IsExportDashed(c) then "-" else if IsExportDropped(c) then "" else [c];
    ReplaceEachIdentity(name, f);
  }
}
