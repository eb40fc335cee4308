/** The string functions of path.c. */
module Paths {
  import opened Wrappers

  // ----- the functions -----

  /** strrchr: the position of the last `c`. */
  function LastIndex(s: string, c: char): (r: Option<nat>)
    ensures r.None? <==> c !in s
    ensures r.Some? ==> r.value < |s| && s[r.value] == c && c !in s[r.value + 1..]
  {
    if s == [] then None
    else if s[|s| - 1] == c then Some(|s| - 1)
    else LastIndex(s[..|s| - 1], c)
  }

  /** What comes after the last slash. */
  function GetFilename(path: string): (name: string)
    ensures '/' !in name && |name| <= |path| && path[|path| - |name|..] == name
    ensures |name| < |path| ==> path[|path| - |name| - 1] == '/'
  {
    match LastIndex(path, '/')
    case None => path
    case Some(i) => path[i + 1..]
  }

  function GetParentPath(path: string): (parent: Option<string>)
    ensures parent.None? <==> '/' !in path
    ensures parent.Some? ==> parent.value != ""
    ensures parent.Some? ==> path == parent.value + "/" + GetFilename(path)
                             || (parent.value == "/" && path == "/" + GetFilename(path))
  {
    match LastIndex(path, '/')
    case None => None
    case Some(i) => if i == 0 then Some("/") else Some(path[..i])
  }

  /** The extension is cut off only when its dot comes after the last slash. */
  function WithoutFileExtension(path: string): string {
    match LastIndex(path, '.')
    case None => path
    case Some(dot) =>
      match LastIndex(path, '/')
      case None => path[..dot]
      case Some(slash) => if dot > slash then path[..dot] else path
  }

  function GetFileExtension(path: string): Option<string> {
    match LastIndex(path, '.')
    case None => None
    case Some(dot) => Some(path[dot + 1..])
  }

  /** A name is cut at its last dot. */
  lemma ExtensionParts(base: string, ext: string)
    requires '.' !in ext && '/' !in ext
    ensures WithoutFileExtension(base + "." + ext) == base && GetFileExtension(base + "." + ext) == Some(ext)
  {
    var name := base + "." + ext;
    assert name[|base| + 1..] == ext && name[..|base|] == base;
    LastIs(base, '.', ext);
  }

  lemma LastIs(before: string, c: char, after: string)
    requires c !in after
    ensures LastIndex(before + [c] + after, c) == Some(|before|)
  {
    var s, i := before + [c] + after, |before|;
    assert s[i] == c && s[i + 1..] == after;
  }

  /** Without a dot there is no extension, and a dot before the last slash is not one of the filename. */
  lemma NoExtension(dir: string, name: string)
    requires '.' !in name
    ensures WithoutFileExtension(name) == name && GetFileExtension(name) == None
    ensures WithoutFileExtension(dir + "/" + name) == dir + "/" + name
  {
    var path := dir + "/" + name;
    match LastIndex(path, '.')
    case None =>
    case Some(dot) =>
      assert path[|dir|] == '/';
  }

  predicate PathIsHidden(path: string) {
    path != [] && path[0] == '.'
  }

  function TokenLength(p: string): (n: nat)
    ensures n <= |p| && '/' !in p[..n]
    ensures n < |p| ==> p[n] == '/'
    ensures p != [] && p[0] != '/' ==> n > 0
  {
    if p == [] || p[0] == '/' then 0 else 1 + TokenLength(p[1..])
  }

  /** The non-empty stretches between slashes. */
  function Split(p: string): (segments: seq<string>)
    decreases |p|
  {
    if p == [] then []
    else if p[0] == '/' then Split(p[1..])
    else var n := TokenLength(p); [p[..n]] + Split(p[n..])
  }

  /** The strtok_r loop of split_path: each round skips slashes and takes one token. */
  method SplitPath(p: string) returns (segments: seq<string>)
    ensures segments == Split(p)
  {
    segments := [];
    var rest := p;
    while rest != []
      invariant segments + Split(rest) == Split(p)
      decreases |rest|
    {
      if rest[0] == '/' {
        rest := rest[1..];
      } else {
        var n := TokenLength(rest);
        segments := segments + [rest[..n]];
        rest := rest[n..];
      }
    }
  }

  function Digit(d: nat): char
    requires d < 10
  {
    ('0' as int + d) as char
  }

  function Decimal(n: nat): (s: string)
    ensures s != []
  {
    if n < 10 then [Digit(n)] else Decimal(n / 10) + [Digit(n % 10)]
  }

  /** my-file.txt with 1 becomes my-file.1.txt. */
  function FilenameNumbered(filename: string, n: nat): string {
    match LastIndex(filename, '.')
    case None => filename + "." + Decimal(n)
    case Some(dot) => filename[..dot] + "." + Decimal(n) + filename[dot..]
  }

  // ----- splitting and joining -----

  predicate ValidName(name: string) {
    name != [] && '/' !in name
  }

  ghost predicate ValidNames(names: seq<string>) {
    forall i :: 0 <= i < |names| ==> ValidName(names[i])
  }

  function Join(names: seq<string>): string {
    if names == [] then [] else Join(names[..|names| - 1]) + "/" + names[|names| - 1]
  }

  lemma {:induction false} SplitSegmentsAreValid(p: string)
    ensures ValidNames(Split(p))
    decreases |p|
  {
    if p == [] {
    } else if p[0] == '/' {
      SplitSegmentsAreValid(p[1..]);
    } else {
      SplitSegmentsAreValid(p[TokenLength(p)..]);
    }
  }

  lemma {:induction false} TokenLengthAtSlash(a: string, b: string)
    ensures TokenLength(a + "/" + b) == TokenLength(a)
  {
    if a != [] && a[0] != '/' {
      assert (a + "/" + b)[1..] == a[1..] + "/" + b;
      TokenLengthAtSlash(a[1..], b);
    }
  }

  lemma {:induction false} TokenLengthOfName(name: string)
    requires '/' !in name
    ensures TokenLength(name) == |name|
  {
    if name != [] {
      TokenLengthOfName(name[1..]);
    }
  }

  lemma {:induction false} SplitAtSlash(a: string, b: string)
    ensures Split(a + "/" + b) == Split(a) + Split(b)
    decreases |a|
  {
    var p := a + "/" + b;
    if a == [] {
      assert p[1..] == b;
    } else if a[0] == '/' {
      assert p[1..] == a[1..] + "/" + b;
      SplitAtSlash(a[1..], b);
    } else {
      var n := TokenLength(a);
      TokenLengthAtSlash(a, b);
      assert p[..n] == a[..n] && p[n..] == a[n..] + "/" + b;
      SplitAtSlash(a[n..], b);
      assert Split(a) == [a[..n]] + Split(a[n..]);
    }
  }

  lemma SplitName(name: string)
    requires '/' !in name
    ensures Split(name) == if name == [] then [] else [name]
  {
    if name != [] {
      TokenLengthOfName(name);
      assert name[..|name|] == name;
    }
  }

  /** A path splits into the segments of its parent path followed by its filename, unless the filename is empty. */
  lemma SplitParentAndFilename(path: string)
    requires '/' in path
    ensures Split(path) == Split(GetParentPath(path).value)
                           + (if GetFilename(path) == [] then [] else [GetFilename(path)])
  {
    var i := LastIndex(path, '/').value;
    var name := path[i + 1..];
    assert path == path[..i] + "/" + name;
    SplitAtSlash(path[..i], name);
    SplitName(name);
    if i == 0 {
      assert "/"[1..] == [];
      assert Split("/") == [] == Split(path[..0]);
    }
  }

  /** Splitting undoes joining. */
  lemma {:induction false} SplitJoin(names: seq<string>)
    requires ValidNames(names)
    ensures Split(Join(names)) == names
  {
    if names != [] {
      hide Split;
      var init, last := names[..|names| - 1], names[|names| - 1];
      SplitJoin(init);
      SplitAtSlash(Join(init), last);
      SplitName(last);
      assert init + [last] == names;
    }
  }

  // ----- numbered filenames -----

  lemma {:induction false} DecimalInjective(m: nat, n: nat)
    ensures Decimal(m) == Decimal(n) <==> m == n
  {
    if Decimal(m) == Decimal(n) {
      var s, t := Decimal(m), Decimal(n);
      assert s[|s| - 1] == Digit(m % 10) && t[|t| - 1] == Digit(n % 10);
      if m >= 10 && n >= 10 {
        assert s[..|s| - 1] == Decimal(m / 10) && t[..|t| - 1] == Decimal(n / 10);
        DecimalInjective(m / 10, n / 10);
      }
    }
  }

  /** The value of a string of decimal digits. */
  ghost function NumeralValue(s: string): int {
    if s == [] then 0
    else 10 * NumeralValue(s[..|s| - 1]) + (s[|s| - 1] as int - '0' as int)
  }

  /** `s` is the decimal numeral of `n`: digits only, no leading zero, and the value `n`. */
  ghost predicate IsNumeral(s: string, n: nat) {
    && s != "" && (forall i :: 0 <= i < |s| ==> '0' <= s[i] <= '9')
    && (|s| > 1 ==> s[0] != '0')
    && NumeralValue(s) == n
  }

  lemma {:induction false} DecimalIsNumeral(n: nat)
    ensures IsNumeral(Decimal(n), n)
    ensures n > 0 ==> Decimal(n)[0] != '0'
  {
    var s := Decimal(n);
    if n >= 10 {
      DecimalIsNumeral(n / 10);
      assert s[..|s| - 1] == Decimal(n / 10);
    } else {
      assert s[..0] == "";
    }
  }

  /** A numeral with a nonzero first digit has a positive value. */
  lemma {:induction false} NumeralPositive(s: string)
    requires s != "" && s[0] != '0' && forall i :: 0 <= i < |s| ==> '0' <= s[i] <= '9'
    ensures NumeralValue(s) > 0
  {
    if |s| > 1 {
      NumeralPositive(s[..|s| - 1]);
    }
  }

  /** A number has one numeral only. */
  lemma {:induction false} NumeralUnique(s: string, n: nat)
    requires IsNumeral(s, n)
    ensures s == Decimal(n)
  {
    var init, d := s[..|s| - 1], s[|s| - 1] as int - '0' as int;
    if init == "" {
      assert NumeralValue(init) == 0 && s == [s[0]];
    } else {
      NumeralPositive(init);
      assert n / 10 == NumeralValue(init) && n % 10 == d;
      NumeralUnique(init, n / 10);
      assert s == init + [s[|s| - 1]];
    }
  }

  /** The number goes before the last dot, and to the end of a name without dot. */
  lemma NumberedParts(base: string, ext: string, n: nat)
    requires '.' !in ext
    ensures exists d :: IsNumeral(d, n) && FilenameNumbered(base + "." + ext, n) == base + "." + d + "." + ext
    ensures '.' !in base ==> exists d :: IsNumeral(d, n) && FilenameNumbered(base, n) == base + "." + d
  {
    var name := base + "." + ext;
    LastIs(base, '.', ext);
    assert name[..|base|] == base && name[|base|..] == "." + ext;
    DecimalIsNumeral(n);
    var d := Decimal(n);
    assert base + "." + d + ("." + ext) == base + "." + d + "." + ext;
  }

  /** A numbered file keeps its extension. */
  lemma NumberedKeepsExtension(filename: string, n: nat)
    requires '.' in filename && '/' !in filename
    ensures GetFileExtension(FilenameNumbered(filename, n)) == GetFileExtension(filename)
  {
    var i := LastIndex(filename, '.').value;
    var base, ext := filename[..i], filename[i + 1..];
    assert filename == base + "." + ext;
    NumberedParts(base, ext, n);
    var d :| IsNumeral(d, n) && FilenameNumbered(filename, n) == base + "." + d + "." + ext;
    ExtensionParts(base, ext);
    ExtensionParts(base + "." + d, ext);
  }

  lemma FilenameNumberedInjective(filename: string, m: nat, n: nat)
    ensures FilenameNumbered(filename, m) == FilenameNumbered(filename, n) <==> m == n
    ensures |FilenameNumbered(filename, n)| > |filename| + 1
  {
    if FilenameNumbered(filename, m) == FilenameNumbered(filename, n) {
      var s := FilenameNumbered(filename, m);
      var before := if '.' in filename then LastIndex(filename, '.').value else |filename|;
      var after := |filename| - before;
      assert s[before + 1..|s| - after] == Decimal(m);
      assert s[before + 1..|s| - after] == Decimal(n);
      DecimalInjective(m, n);
    }
  }
}
