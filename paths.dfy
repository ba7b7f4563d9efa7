/** `std::path::Path` / `PathBuf` as the atlas builder uses them, on a
    `/`-separated path held as its text: the file name and its extension,
    `with_extension` / `set_extension`, `parent`, and `join` / `push`. */
module Paths {
  import opened Wrappers
  import opened Text

  /** The position of the last `c` in `s`, if any. */
  function LastIndexOf(s: string, c: char): (r: Option<nat>)
    ensures r.Some? ==> r.value < |s| && s[r.value] == c && forall j :: r.value < j < |s| ==> s[j] != c
    ensures r.None? ==> forall j :: 0 <= j < |s| ==> s[j] != c
  {
    if |s| == 0 then None
    else if s[|s| - 1] == c then Some(|s| - 1)
    else LastIndexOf(s[..|s| - 1], c)
  }

  /** The path less any separators at its end. */
  function TrimSeparators(p: string): (r: string)
    ensures |r| <= |p| && r == p[..|r|]
    ensures r == "" || r[|r| - 1] != '/'
    ensures forall j :: |r| <= j < |p| ==> p[j] == '/'
  {
    if p != [] && p[|p| - 1] == '/' then TrimSeparators(p[..|p| - 1]) else p
  }

  /** A path that does not end in a separator has none to trim. */
  lemma TrimNothing(p: string)
    requires p == "" || p[|p| - 1] != '/'
    ensures TrimSeparators(p) == p
  {
  }

  /** Where the last component ends: separators at the end of a path are not
      part of any component. */
  function NameEnd(p: string): (i: nat)
    ensures i <= |p|
  {
    |TrimSeparators(p)|
  }

  /** Where the last component begins: just after the last separator that
      precedes its end. */
  function NameStart(p: string): (i: nat)
    ensures i <= NameEnd(p)
    ensures forall j :: i <= j < NameEnd(p) ==> p[j] != '/'
    ensures i > 0 ==> p[i - 1] == '/'
  {
    var q := TrimSeparators(p);
    match LastIndexOf(q, '/')
    case None => 0
    case Some(k) => k + 1
  }

  /** `Path::file_name`: the last component, unless it is empty (the path is
      empty or all separators), `.` or `..`. */
  function FileName(p: string): Option<string> {
    var n := p[NameStart(p)..NameEnd(p)];
    if n == "" || n == "." || n == ".." then None else Some(n)
  }

  /** Where the dot that starts the extension sits in the file name: the last
      `.`, provided something precedes it (`.hidden` has no extension). */
  function ExtensionDot(name: string): Option<nat> {
    match LastIndexOf(name, '.')
    case None => None
    case Some(d) => if d == 0 then None else Some(d)
  }

  /** `Path::extension`: there is one exactly when the file name has a `.`
      after its first character, and it is the text after the last `.`. */
  function Extension(p: string): (r: Option<string>)
    ensures r.Some? <==>
      (FileName(p).Some? && exists d :: 0 < d < |FileName(p).value| && FileName(p).value[d] == '.')
    ensures r.Some? ==> '.' !in r.value && '/' !in r.value
    ensures r.Some? ==> var n := FileName(p).value;
      |r.value| < |n| && n[|n| - |r.value| - 1..] == "." + r.value
  {
    match FileName(p)
    case None => None
    case Some(n) =>
      match ExtensionDot(n)
      case None => None
      case Some(d) => Some(n[d + 1..])
  }

  /** Where `Path::file_stem` ends in the whole path. */
  function StemEnd(p: string): (i: nat)
    requires FileName(p).Some?
    ensures NameStart(p) < i <= NameEnd(p)
  {
    var n := FileName(p).value;
    match ExtensionDot(n)
    case None => NameEnd(p)
    case Some(d) => NameStart(p) + d
  }

  /** `Path::with_extension(e)` (and `PathBuf::set_extension(e)`): a path with
      a file name keeps everything up to the end of its stem and gets `.e`
      (nothing when `e` is empty), and loses any separators at its end; a
      path without one is unchanged. */
  function WithExtension(p: string, e: string): string {
    match FileName(p)
    case None => p
    case Some(_) => p[..StemEnd(p)] + (if e == "" then "" else "." + e)
  }

  /** Removing the extension keeps a prefix of the path. */
  lemma StemIsPrefix(p: string)
    ensures StartsWith(p, WithExtension(p, ""))
  {
    if FileName(p).Some? {
      assert WithExtension(p, "") == p[..StemEnd(p)];
    }
  }

  /** An extension as `with_extension` is given it: one plain component. */
  predicate PlainExtension(e: string) {
    e != "" && '.' !in e && '/' !in e
  }

  /** After `with_extension(e)` the path's extension is `e`, and its file name
      still begins with the old stem. */
  lemma WithExtensionSetsExtension(p: string, e: string)
    requires FileName(p).Some? && PlainExtension(e)
    ensures NameStart(WithExtension(p, e)) == NameStart(p)
    ensures FileName(WithExtension(p, e)).Some?
    ensures ExtensionDot(FileName(WithExtension(p, e)).value) == Some(StemEnd(p) - NameStart(p))
    ensures Extension(WithExtension(p, e)) == Some(e)
  {
    var s, t := NameStart(p), StemEnd(p);
    WithExtensionNameStart(p, e);
    WithExtensionName(p, e);
    NameExtension(p[s..t], e);
  }

  /** The file name `with_extension` gives: the old stem, `.` and `e`. */
  lemma WithExtensionName(p: string, e: string)
    requires FileName(p).Some? && PlainExtension(e)
    requires NameStart(WithExtension(p, e)) == NameStart(p)
    ensures FileName(WithExtension(p, e)) == Some(p[NameStart(p)..StemEnd(p)] + "." + e)
  {
    var r := WithExtension(p, e);
    var s, t := NameStart(p), StemEnd(p);
    assert r == p[..t] + "." + e;
    assert r[|r| - 1] == e[|e| - 1];
    TrimNothing(r);
    NameExtension(p[s..t], e);
    assert r[s..] == p[s..t] + "." + e;
  }

  /** `with_extension` leaves the separators where they were. */
  lemma WithExtensionNameStart(p: string, e: string)
    requires FileName(p).Some? && PlainExtension(e)
    ensures NameStart(WithExtension(p, e)) == NameStart(p)
  {
    var r := WithExtension(p, e);
    var s, t := NameStart(p), StemEnd(p);
    assert r == p[..t] + "." + e;
    assert forall j :: s <= j < |r| ==> r[j] != '/' by {
      forall j | s <= j < |r| ensures r[j] != '/' {
        if j < t { assert r[j] == p[j]; }
        else if j > t { assert r[j] == e[j - t - 1]; }
      }
    }
    assert s > 0 ==> r[s - 1] == '/' by {
      if s > 0 { assert r[s - 1] == p[s - 1]; }
    }
    LastIndexAfter(r, '/', s);
  }

  /** A non-empty stem followed by `.e` is a file name with extension `e`. */
  lemma NameExtension(stem: string, e: string)
    requires stem != [] && PlainExtension(e)
    ensures var n := stem + "." + e;
      n != "" && n != "." && n != ".." && ExtensionDot(n) == Some(|stem|) && n[|stem| + 1..] == e
  {
    var n := stem + "." + e;
    var d := |stem|;
    assert n[d] == '.';
    assert forall j :: d < j < |n| ==> n[j] != '.' by {
      forall j | d < j < |n| ensures n[j] != '.' {
        assert n[j] == e[j - d - 1];
      }
    }
    LastIndexAt(n, '.', d);
    assert |n| >= 3;
  }

  /** `LastIndexOf` finds the separator just before `i` when none follows. */
  lemma LastIndexAfter(s: string, c: char, i: nat)
    requires i <= |s|
    requires forall j :: i <= j < |s| ==> s[j] != c
    requires i > 0 ==> s[i - 1] == c
    ensures LastIndexOf(s, c) == if i == 0 then None else Some(i - 1)
  {
    if i > 0 {
      LastIndexAt(s, c, i - 1);
    }
  }

  lemma LastIndexAt(s: string, c: char, k: nat)
    requires k < |s| && s[k] == c
    requires forall j :: k < j < |s| ==> s[j] != c
    ensures LastIndexOf(s, c) == Some(k)
  {
    match LastIndexOf(s, c)
    case None =>
    case Some(m) =>
  }

  /** Setting one extension and then another is setting the second: the
      `.ron` sidecar of `file.with_extension("json")` is `file.with_extension("ron")`. */
  lemma WithExtensionTwice(p: string, e1: string, e2: string)
    requires FileName(p).Some? && PlainExtension(e1)
    ensures WithExtension(WithExtension(p, e1), e2) == WithExtension(p, e2)
  {
    WithExtensionSetsExtension(p, e1);
    var r := WithExtension(p, e1);
    assert StemEnd(r) == StemEnd(p);
    assert r[..StemEnd(r)] == p[..StemEnd(p)];
  }

  /** `with_extension("")` drops exactly `.` and the extension, and leaves a
      path without an extension as it is. */
  lemma WithoutExtension(p: string)
    ensures FileName(p).None? ==> WithExtension(p, "") == p
    ensures FileName(p).Some? && Extension(p).None? ==> WithExtension(p, "") == TrimSeparators(p)
    ensures Extension(p).Some? ==> TrimSeparators(p) == WithExtension(p, "") + "." + Extension(p).value
  {
    match FileName(p)
    case None =>
    case Some(n) =>
      match ExtensionDot(n)
      case None => StemIsName(p, n);
      case Some(d) => StemBeforeDot(p, n, d);
  }

  /** A file name without an extension is its own stem. */
  lemma StemIsName(p: string, n: string)
    requires FileName(p) == Some(n) && ExtensionDot(n).None?
    ensures Extension(p).None? && WithExtension(p, "") == TrimSeparators(p)
  {
    assert StemEnd(p) == NameEnd(p);
  }

  /** The stem ends at the dot before the extension. */
  lemma StemBeforeDot(p: string, n: string, d: nat)
    requires FileName(p) == Some(n) && ExtensionDot(n) == Some(d)
    ensures Extension(p) == Some(n[d + 1..])
    ensures TrimSeparators(p) == WithExtension(p, "") + "." + n[d + 1..]
  {
    StemBeforeDotSplits(p, n, d);
  }

  lemma StemBeforeDotSplits(p: string, n: string, d: nat)
    requires FileName(p) == Some(n) && ExtensionDot(n) == Some(d)
    ensures TrimSeparators(p) == WithExtension(p, "") + "." + n[d + 1..]
  {
    var q := TrimSeparators(p);
    var s := NameStart(p);
    assert n == q[s..];
    assert StemEnd(p) == s + d;
    assert WithExtension(p, "") == q[..s + d];
    SplitAtDot(q, s, d);
  }

  /** Cutting a sequence around the dot at `s + d`, where its tail from `s`
      on is `n`. */
  lemma SplitAtDot(q: string, s: nat, d: nat)
    requires s + d < |q| && q[s + d] == '.'
    ensures q == q[..s + d] + "." + q[s..][d + 1..]
  {
    assert q[s..][d + 1..] == q[s + d + 1..];
  }

  /** `Path::parent`: the path up to its last component, without the
      separators before that component (a run of them counts as one); the
      root `/` for a path directly under it; the empty path for a
      one-component relative path; nothing for the empty path and for the
      root. Separators at the end of the path are not a component. */
  function Parent(p: string): (r: Option<string>)
    ensures r.Some? ==> |r.value| < |p| && StartsWith(p, r.value)
    ensures r.Some? ==> r.value == "/" || r.value == "" || r.value[|r.value| - 1] != '/'
    ensures r.None? <==> forall j :: 0 <= j < |p| ==> p[j] == '/'
    ensures r.Some? ==> var s := NameStart(p);
      |r.value| <= s < NameEnd(p) &&
      (forall k :: |r.value| <= k < s ==> p[k] == '/') &&
      (r.value == "" <==> s == 0) &&
      (r.value != "" && r.value != "/" ==> |r.value| < s)
  {
    var q := TrimSeparators(p);
    if q == "" then None
    else match LastIndexOf(q, '/')
      case None => Some("")
      case Some(i) =>
        var h := TrimSeparators(q[..i]);
        if h == "" then Some("/") else Some(h)
  }

  /** The path is absolute. */
  predicate IsAbsolute(p: string) {
    StartsWith(p, "/")
  }

  /** `Path::join(q)` / `PathBuf::push(q)`: an absolute `q` replaces the path;
      otherwise `q` is appended, with a separator unless the path is empty or
      already ends in one. */
  function Join(base: string, q: string): (r: string)
    ensures IsAbsolute(q) ==> r == q
    ensures !IsAbsolute(q) ==> StartsWith(r, base) && |r| >= |q| && r[|r| - |q|..] == q
    ensures !IsAbsolute(q) && (base == "" || base[|base| - 1] == '/') ==> r == base + q
    ensures !IsAbsolute(q) && base != "" && base[|base| - 1] != '/' ==> r == base + "/" + q
  {
    if IsAbsolute(q) then q
    else if base == "" || base[|base| - 1] == '/' then base + q
    else base + "/" + q
  }
}
