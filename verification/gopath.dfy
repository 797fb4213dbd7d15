/** Go's `path/filepath` functions on Unix paths, as the transcoder and the
    upload path use them: `Clean`, `Dir`, `Join` and `Ext`. */
module GoPath {
  import opened Wrappers
  import Text

  /** The lexical reduction at the heart of `filepath.Clean`: empty and "."
      segments vanish, ".." removes the previous real segment, is dropped
      at the root of an absolute path, and is kept at the front of a
      relative one. */
  function Reduce(stack: seq<string>, segs: seq<string>, rooted: bool): (r: seq<string>)
    decreases |segs|
  {
    if segs == [] then stack
    else
      var s := segs[0];
      if s == "" || s == "." then Reduce(stack, segs[1..], rooted)
      else if s == ".." then
        if |stack| > 0 && stack[|stack| - 1] != ".." then Reduce(stack[..|stack| - 1], segs[1..], rooted)
        else if rooted then Reduce(stack, segs[1..], rooted)
        else Reduce(stack + [".."], segs[1..], rooted)
      else Reduce(stack + [s], segs[1..], rooted)
  }

  /** `filepath.Clean`. */
  function Clean(p: string): (r: string)
    ensures r != ""
  {
    if p == "" then "."
    else
      var rooted := p[0] == '/';
      var body := Text.Join(Reduce([], Text.Split(p, '/'), rooted), "/");
      if rooted then "/" + body
      else if body == "" then "."
      else body
  }

  /** `filepath.Dir`: everything up to the last separator, cleaned; "."
      when there is no separator. */
  function Dir(p: string): (d: string)
    ensures d != ""
  {
    match Text.LastIndexOf(p, '/')
    case None => "."
    case Some(i) => Clean(p[..i + 1])
  }

  /** `filepath.Join` of two elements: empty elements are ignored and the
      rest are joined with a separator and cleaned. */
  function Join(a: string, b: string): string {
    if a == "" && b == "" then ""
    else if a == "" then Clean(b)
    else if b == "" then Clean(a)
    else Clean(a + "/" + b)
  }

  /** `filepath.Ext`: the suffix from the last '.' of the final path
      element, or "" when that element has no '.'. */
  function Ext(p: string): (e: string)
    ensures Text.HasSuffix(p, e)
    ensures e == "" || (e[0] == '.' && '.' !in e[1..])
    ensures '/' !in e
  {
    if p == [] || p[|p| - 1] == '/' then ""
    else if p[|p| - 1] == '.' then "."
    else
      var e := Ext(p[..|p| - 1]);
      if e == "" then "" else e + [p[|p| - 1]]
  }

  /** Appending "." and a word free of '.' and '/' makes that the extension,
      whatever came before. */
  lemma {:induction false} ExtOfAppendedExtension(stem: string, w: string)
    requires '.' !in w && '/' !in w
    ensures Ext(stem + "." + w) == "." + w
    decreases |w|
  {
    var p := stem + "." + w;
    if w != [] {
      var w' := w[..|w| - 1];
      assert p[..|p| - 1] == stem + "." + w';
      ExtOfAppendedExtension(stem, w');
      assert "." + w' + [w[|w| - 1]] == "." + w;
    }
  }

  /** Splitting a string with one more separated word appended yields the
      old pieces plus that word. */
  lemma {:induction false} SplitAppendWord(s: string, w: string, sep: char)
    requires sep !in w
    ensures Text.Split(s + [sep] + w, sep) == Text.Split(s, sep) + [w]
    decreases |s|
  {
    if s == [] {
      assert [sep] + w == [sep] + w;
      assert ([sep] + w)[1..] == w;
      Text.SplitOfWordOnly(w, sep);
    } else {
      assert (s + [sep] + w)[1..] == s[1..] + [sep] + w;
      assert (s + [sep] + w)[0] == s[0];
      SplitAppendWord(s[1..], w, sep);
    }
  }

  /** A real name (not empty, "." or "..") appended to the segments comes
      out unchanged at the end of the reduction. */
  lemma {:induction false} ReduceAppendName(stack: seq<string>, segs: seq<string>, w: string, rooted: bool)
    requires w != "" && w != "." && w != ".."
    ensures Reduce(stack, segs + [w], rooted) == Reduce(stack, segs, rooted) + [w]
    decreases |segs|
  {
    if segs == [] {
      assert [w][1..] == [];
    } else {
      assert (segs + [w])[0] == segs[0];
      assert (segs + [w])[1..] == segs[1..] + [w];
      var s := segs[0];
      if s == "" || s == "." {
        ReduceAppendName(stack, segs[1..], w, rooted);
      } else if s == ".." {
        if |stack| > 0 && stack[|stack| - 1] != ".." {
          ReduceAppendName(stack[..|stack| - 1], segs[1..], w, rooted);
        } else if rooted {
          ReduceAppendName(stack, segs[1..], w, rooted);
        } else {
          ReduceAppendName(stack + [".."], segs[1..], w, rooted);
        }
      } else {
        ReduceAppendName(stack + [s], segs[1..], w, rooted);
      }
    }
  }

  lemma {:induction false} JoinAppend(xs: seq<string>, w: string, sep: string)
    ensures Text.Join(xs + [w], sep) == if xs == [] then w else Text.Join(xs, sep) + sep + w
    decreases |xs|
  {
    if |xs| > 1 {
      assert (xs + [w])[1..] == xs[1..] + [w];
      JoinAppend(xs[1..], w, sep);
    } else if |xs| == 1 {
      assert (xs + [w])[1..] == [w];
    }
  }

  /** Joining a directory with a plain file name (no separator, not "."
      or "..") gives a path whose last element is that name. */
  lemma JoinEndsWithName(dir: string, name: string)
    requires dir != ""
    requires name != "" && name != "." && name != ".." && '/' !in name
    ensures Text.HasSuffix(Join(dir, name), name)
    ensures |Join(dir, name)| == |name| || Join(dir, name)[|Join(dir, name)| - |name| - 1] == '/'
  {
    var p := dir + "/" + name;
    assert p == dir + ['/'] + name;
    assert p[0] == dir[0];
    SplitAppendWord(dir, name, '/');
    var rooted := dir[0] == '/';
    ReduceAppendName([], Text.Split(dir, '/'), name, rooted);
    var red := Reduce([], Text.Split(dir, '/'), rooted);
    JoinAppend(red, name, "/");
  }
}
