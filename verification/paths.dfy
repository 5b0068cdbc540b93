/** Rust's `std::path::Path` on a Unix target, restricted to what the provisioner
    uses: `file_name`, `parent`, `file_stem`, `extension` and `with_file_name`.
    A path is a string with '/' as the only separator; empty and "." pieces inside
    the path are not components, a leading "/" is the root and a leading "." piece
    is the current directory. */
module Paths {
  import opened Outcomes

  const Separator: char := '/'

  datatype Component = RootDir | CurDir | ParentDir | Normal(name: string)

  predicate HasRoot(p: string)
  {
    |p| > 0 && p[0] == Separator
  }

  /** A relative path whose first piece is ".": that piece is reported as `CurDir`. */
  predicate StartsWithCurDir(p: string)
  {
    !HasRoot(p) && |p| > 0 && p[0] == '.' && (|p| == 1 || p[1] == Separator)
  }

  /** Length of the part before the body: the root or the leading ".". */
  function BodyStart(p: string): (n: nat)
    ensures n <= |p| && n <= 1
  {
    if HasRoot(p) || StartsWithCurDir(p) then 1 else 0
  }

  /** The last position at or after `lo` holding `c`. */
  function LastIndex(s: string, c: char, lo: nat): (r: Option<nat>)
    ensures r.Some? ==> lo <= r.value < |s| && s[r.value] == c
    ensures r.Some? ==> forall j :: r.value < j < |s| ==> s[j] != c
    ensures r.None? ==> forall j :: lo <= j < |s| ==> s[j] != c
    decreases |s|
  {
    if |s| <= lo then None
    else if s[|s| - 1] == c then Some(|s| - 1)
    else LastIndex(s[..|s| - 1], c, lo)
  }

  /** One piece between separators: empty and "." pieces are skipped. */
  function ParseSingle(piece: string): Option<Component>
  {
    if piece == "" || piece == "." then None
    else if piece == ".." then Some(ParentDir)
    else Some(Normal(piece))
  }

  /** One backward step over the body: how many characters the last piece and
      its separator occupy, and the component it is (None when skipped). */
  function ParseBack(p: string): (r: (nat, Option<Component>))
    requires |p| > BodyStart(p)
    ensures 0 < r.0 <= |p| - BodyStart(p)
  {
    var bs := BodyStart(p);
    match LastIndex(p, Separator, bs)
    case None => (|p| - bs, ParseSingle(p[bs..]))
    case Some(i) => (|p| - i, ParseSingle(p[i + 1..]))
  }

  /** A path that ends in a component (or has no body at all). */
  predicate Trimmed(p: string)
  {
    |p| > BodyStart(p) ==> ParseBack(p).1.Some?
  }

  /** Drops trailing separators and "." pieces, as `Components::as_path` does. */
  function TrimRight(p: string): (r: string)
    ensures r <= p && Trimmed(r)
    ensures Trimmed(p) ==> r == p
    ensures forall k :: |r| < k <= |p| ==> !Trimmed(p[..k])
    decreases |p|
  {
    if |p| > BodyStart(p) then
      var step := ParseBack(p);
      if step.1.Some? then p
      else
        var rest := p[..|p| - step.0];
        CutInsideSkippedPiece(p);
        assert forall k :: 0 <= k <= |rest| ==> rest[..k] == p[..k];
        TrimRight(rest)
    else p
  }

  /** Every prefix that ends inside a skipped trailing piece (an empty or "."
      piece) still ends in a skipped piece, so none of them is trimmed. */
  lemma CutInsideSkippedPiece(p: string)
    requires |p| > BodyStart(p) && ParseBack(p).1.None?
    ensures forall k :: |p| - ParseBack(p).0 < k <= |p| ==> !Trimmed(p[..k])
  {
    var bs := BodyStart(p);
    var step := ParseBack(p);
    forall k | |p| - step.0 < k <= |p| ensures !Trimmed(p[..k]) {
      if k == |p| {
        assert p[..k] == p;
      } else {
        // Without a separator the skipped piece is all of the body, which is
        // then a lone "." and leaves no room for a cut before its end.
        var li := LastIndex(p, Separator, bs);
        assert li.Some?;
        var i := li.value;
        assert p[i + 1..] == "" || p[i + 1..] == ".";
        assert k == i + 1;
        SeparatorCutIsSkipped(p, i);
      }
    }
  }

  /** Cutting a path just after a separator inside its body leaves an empty
      last piece. */
  lemma SeparatorCutIsSkipped(p: string, i: nat)
    requires BodyStart(p) <= i < |p| && p[i] == Separator
    ensures !Trimmed(p[..i + 1])
  {
    var q := p[..i + 1];
    assert i >= 1 by {
      if i == 0 {
        assert HasRoot(p);
      }
    }
    assert q[0] == p[0] && q[1] == p[1];
    assert BodyStart(q) == BodyStart(p);
    LastIndexAt(q, Separator, BodyStart(q), i);
    assert q[i + 1..] == "";
  }

  /** `components().next_back()` together with what `as_path()` then returns
      for the remaining components. */
  function NextBack(p: string): (r: Option<(Component, string)>)
    ensures r.Some? ==> r.value.1 <= p
    decreases |p|
  {
    if |p| > BodyStart(p) then
      var step := ParseBack(p);
      var rest := p[..|p| - step.0];
      if step.1.Some? then Some((step.1.value, TrimRight(rest))) else NextBack(rest)
    else if HasRoot(p) then Some((RootDir, ""))
    else if StartsWithCurDir(p) then Some((CurDir, ""))
    else None
  }

  /** `Path::file_name`: the last component when it is a normal one. */
  function FileName(p: string): Option<string>
  {
    match NextBack(p)
    case Some((Normal(name), _)) => Some(name)
    case _ => None
  }

  /** `Path::parent`: the path without its last component; none for the root or
      the empty path. */
  function Parent(p: string): Option<string>
  {
    match NextBack(p)
    case Some((RootDir, _)) => None
    case Some((_, rest)) => Some(rest)
    case None => None
  }

  /** The private `rsplit_file_at_dot`: the parts before and after the last '.',
      except that a name whose only '.' is its first character is not split. */
  function SplitAtDot(file: string): (Option<string>, Option<string>)
  {
    if file == ".." then (Some(file), None)
    else match LastIndex(file, '.', 0)
      case None => (None, Some(file))
      case Some(i) => if i == 0 then (Some(file), None) else (Some(file[..i]), Some(file[i + 1..]))
  }

  /** `Path::file_stem`. */
  function FileStem(p: string): Option<string>
  {
    match FileName(p)
    case None => None
    case Some(f) =>
      var parts := SplitAtDot(f);
      if parts.0.Some? then parts.0 else parts.1
  }

  /** `Path::extension`. */
  function Extension(p: string): Option<string>
  {
    match FileName(p)
    case None => None
    case Some(f) =>
      var parts := SplitAtDot(f);
      if parts.0.Some? then parts.1 else None
  }

  /** `PathBuf::pop`: truncate to the parent, or leave the path alone without one. */
  function Pop(p: string): string
  {
    match Parent(p)
    case Some(q) => q
    case None => p
  }

  /** `PathBuf::push` of a relative or absolute name. */
  function Push(base: string, name: string): string
  {
    if HasRoot(name) then name
    else if |base| > 0 && base[|base| - 1] != Separator then base + [Separator] + name
    else base + name
  }

  /** `Path::with_file_name`: replace the file name if there is one, else append. */
  function WithFileName(p: string, name: string): string
  {
    Push(if FileName(p).Some? then Pop(p) else p, name)
  }

  /** A single normal component: what `with_file_name` may be given and still
      yield a path whose file name is exactly `name`. */
  predicate ValidFileName(name: string)
  {
    |name| > 0 && Separator !in name && name != "." && name != ".."
  }

  /** A file name is never empty, never "." or "..", and holds no separator. */
  lemma {:induction false} FileNameIsValid(p: string)
    requires FileName(p).Some?
    ensures ValidFileName(FileName(p).value)
    decreases |p|
  {
    if |p| > BodyStart(p) {
      var step := ParseBack(p);
      if step.1.None? {
        FileNameIsValid(p[..|p| - step.0]);
      } else {
        var bs := BodyStart(p);
        match LastIndex(p, Separator, bs)
        case None =>
          assert Separator !in p[bs..];
        case Some(i) =>
          assert Separator !in p[i + 1..];
      }
    }
  }

  /** The parent of a path is already trimmed. */
  lemma {:induction false} ParentIsTrimmed(p: string)
    requires Parent(p).Some?
    ensures Trimmed(Parent(p).value)
    ensures Parent(p).value <= p
    decreases |p|
  {
    if |p| > BodyStart(p) {
      var step := ParseBack(p);
      if step.1.None? {
        ParentIsTrimmed(p[..|p| - step.0]);
      }
    }
  }

  /** `LastIndex` is determined by where `c` last occurs. */
  lemma LastIndexAt(s: string, c: char, lo: nat, k: nat)
    requires lo <= k < |s| && s[k] == c
    requires forall j :: k < j < |s| ==> s[j] != c
    ensures LastIndex(s, c, lo) == Some(k)
  {
  }

  lemma NoSeparatorIn(name: string)
    requires ValidFileName(name)
    ensures forall j :: 0 <= j < |name| ==> name[j] != Separator
  {
    forall j | 0 <= j < |name| ensures name[j] != Separator {
      assert name[j] in name;
    }
  }

  /** The last step over `base + sep + name` reads `name` and leaves `base`. */
  lemma StepAfterSeparator(base: string, name: string, m: string)
    requires ValidFileName(name) && |base| > 0
    requires m == base + [Separator] + name
    requires BodyStart(m) == BodyStart(base)
    ensures |m| > BodyStart(m)
    ensures ParseBack(m) == (|name| + 1, Some(Normal(name)))
    ensures m[..|m| - (|name| + 1)] == base
  {
    var k := |base|;
    NoSeparatorIn(name);
    assert forall j :: k < j < |m| ==> m[j] == name[j - k - 1];
    LastIndexAt(m, Separator, BodyStart(m), k);
    assert m[k + 1..] == name;
  }

  /** The last step over `base + name`, where `base` ends in a separator inside
      the body, reads `name` and leaves `base` without that separator. */
  lemma StepAfterTrailingSeparator(base: string, name: string, m: string)
    requires ValidFileName(name) && |base| > BodyStart(base) && base[|base| - 1] == Separator
    requires m == base + name
    requires BodyStart(m) == BodyStart(base)
    ensures |m| > BodyStart(m)
    ensures ParseBack(m) == (|name| + 1, Some(Normal(name)))
    ensures m[..|m| - (|name| + 1)] == base[..|base| - 1]
  {
    var k := |base| - 1;
    NoSeparatorIn(name);
    assert forall j :: k < j < |m| ==> m[j] == name[j - k - 1];
    LastIndexAt(m, Separator, BodyStart(m), k);
    assert m[k + 1..] == name;
  }

  /** Trimming a path that ends in a separator inside the body drops it. */
  lemma TrimTrailingSeparator(base: string)
    requires |base| > BodyStart(base) && base[|base| - 1] == Separator
    ensures TrimRight(base) == TrimRight(base[..|base| - 1])
  {
    var k := |base| - 1;
    assert LastIndex(base, Separator, BodyStart(base)) == Some(k);
    assert ParseSingle(base[k + 1..]) == None by {
      assert base[k + 1..] == "";
    }
    assert ParseBack(base) == (1, None);
  }

  /** The single step over a bare name, or over a name after the root. */
  lemma StepOverWholeBody(m: string, name: string, bs: nat)
    requires ValidFileName(name) && bs <= 1 && |m| == bs + |name|
    requires BodyStart(m) == bs && m[bs..] == name
    ensures |m| > BodyStart(m)
    ensures ParseBack(m) == (|name|, Some(Normal(name)))
  {
    NoSeparatorIn(name);
    assert forall j :: bs <= j < |m| ==> m[j] == name[j - bs];
    assert LastIndex(m, Separator, bs).None?;
  }

  /** The body of a path built by `Push` starts where the base's body starts. */
  lemma PushKeepsBodyStart(base: string, name: string)
    requires ValidFileName(name) && |base| > 0
    ensures BodyStart(Push(base, name)) == BodyStart(base)
  {
    var m := Push(base, name);
    assert !HasRoot(name) by {
      NoSeparatorIn(name);
    }
    assert m[0] == base[0];
    if |base| > 1 {
      assert m[1] == base[1];
    }
  }

  /** Pushing a valid name onto the empty path gives the bare name. */
  lemma PushOntoEmpty(name: string)
    requires ValidFileName(name)
    ensures FileName(Push("", name)) == Some(name)
    ensures Parent(Push("", name)) == Some("")
  {
    var m := Push("", name);
    NoSeparatorIn(name);
    assert m == name;
    assert BodyStart(m) == 0 by {
      if |name| > 1 && name[0] == '.' {
        assert name[1] != Separator;
      }
    }
    StepOverWholeBody(m, name, 0);
    assert m[..|m| - |name|] == "";
  }

  /** A last step that reads a normal component decides both the file name and
      the parent. */
  lemma ReadsLastStep(m: string, k: nat, name: string)
    requires |m| > BodyStart(m) && ParseBack(m) == (k, Some(Normal(name)))
    ensures k <= |m|
    ensures FileName(m) == Some(name) && Parent(m) == Some(TrimRight(m[..|m| - k]))
  {
    assert NextBack(m) == Some((Normal(name), TrimRight(m[..|m| - k])));
  }

  /** Pushing onto a base that does not end in a separator inserts one. */
  lemma PushAfterName(base: string, name: string)
    requires ValidFileName(name) && |base| > 0 && base[|base| - 1] != Separator
    ensures FileName(Push(base, name)) == Some(name)
    ensures Parent(Push(base, name)) == Some(TrimRight(base))
  {
    var m := Push(base, name);
    assert !HasRoot(name) by {
      NoSeparatorIn(name);
    }
    PushKeepsBodyStart(base, name);
    StepAfterSeparator(base, name, m);
    ReadsLastStep(m, |name| + 1, name);
  }

  /** Pushing onto a base that ends in a separator inside its body. */
  lemma PushAfterSeparator(base: string, name: string)
    requires ValidFileName(name) && |base| > BodyStart(base) && base[|base| - 1] == Separator
    ensures FileName(Push(base, name)) == Some(name)
    ensures Parent(Push(base, name)) == Some(TrimRight(base))
  {
    var m := Push(base, name);
    assert !HasRoot(name) by {
      NoSeparatorIn(name);
    }
    PushKeepsBodyStart(base, name);
    StepAfterTrailingSeparator(base, name, m);
    ReadsLastStep(m, |name| + 1, name);
    TrimTrailingSeparator(base);
  }

  /** Pushing onto the root alone. */
  lemma PushAfterRoot(name: string)
    requires ValidFileName(name)
    ensures FileName(Push([Separator], name)) == Some(name)
    ensures Parent(Push([Separator], name)) == Some(TrimRight([Separator]))
  {
    var base := [Separator];
    var m := Push(base, name);
    assert !HasRoot(name) by {
      NoSeparatorIn(name);
    }
    PushKeepsBodyStart(base, name);
    StepOverWholeBody(m, name, 1);
    ReadsLastStep(m, |name|, name);
    assert m[..|m| - |name|] == base;
  }

  /** Pushing a valid name onto any base gives a path whose file name is that name
      and whose parent is the base with trailing separators and "." pieces dropped. */
  lemma PushValidName(base: string, name: string)
    requires ValidFileName(name)
    ensures FileName(Push(base, name)) == Some(name)
    ensures Parent(Push(base, name)) == Some(TrimRight(base))
  {
    if |base| == 0 {
      PushOntoEmpty(name);
      assert TrimRight(base) == "";
    } else if base[|base| - 1] != Separator {
      PushAfterName(base, name);
    } else if |base| > BodyStart(base) {
      PushAfterSeparator(base, name);
    } else {
      assert base == [Separator];
      PushAfterRoot(name);
    }
  }

  /** `with_file_name` with a valid name changes only the last component: the
      result's file name is `name`, and it sits in the directory of the original
      (for a path without a file name, `name` is appended to the trimmed path). */
  lemma WithFileNameKeepsDirectory(p: string, name: string)
    requires ValidFileName(name)
    ensures FileName(WithFileName(p, name)) == Some(name)
    ensures FileName(p).Some? ==> Parent(WithFileName(p, name)) == Parent(p)
    ensures FileName(p).None? ==> Parent(WithFileName(p, name)) == Some(TrimRight(p))
  {
    if FileName(p).Some? {
      assert Parent(p).Some?;
      ParentIsTrimmed(p);
      PushValidName(Pop(p), name);
    } else {
      PushValidName(p, name);
    }
  }

  /** Stem and extension split the file name at its last '.': with an extension
      the name is `stem + "." + extension`, the extension holds no '.', and the
      stem is not empty; without one the stem is the whole name and the name has
      no '.' after its first character. */
  lemma StemAndExtension(p: string)
    ensures FileStem(p).Some? <==> FileName(p).Some?
    ensures Extension(p).Some? ==>
      && FileName(p) == Some(FileStem(p).value + "." + Extension(p).value)
      && '.' !in Extension(p).value
      && FileStem(p).value != ""
    ensures FileName(p).Some? && Extension(p).None? ==>
      && FileStem(p) == FileName(p)
      && forall i :: 0 < i < |FileName(p).value| ==> FileName(p).value[i] != '.'
  {
    if FileName(p).Some? {
      var f := FileName(p).value;
      FileNameIsValid(p);
      match LastIndex(f, '.', 0)
      case None =>
      case Some(i) =>
        if i > 0 {
          assert f == f[..i] + "." + f[i + 1..];
          var ext := f[i + 1..];
          assert '.' !in ext by {
            forall j | 0 <= j < |ext| ensures ext[j] != '.' {
              assert ext[j] == f[i + 1 + j];
            }
          }
        }
    }
  }

  /** Conversely, a file name of the form `base + "." + e` with a non-empty `base`
      and no '.' in `e` has stem `base` and extension `e`. */
  lemma StemAndExtensionOf(p: string, base: string, e: string)
    requires FileName(p) == Some(base + "." + e)
    requires base != "" && '.' !in e
    ensures FileStem(p) == Some(base) && Extension(p) == Some(e)
  {
    var f := base + "." + e;
    var k := |base|;
    assert f[k] == '.';
    forall j | k < j < |f| ensures f[j] != '.' {
      assert f[j] == e[j - k - 1];
      assert e[j - k - 1] in e;
    }
    LastIndexAt(f, '.', 0, k);
    assert f[..k] == base && f[k + 1..] == e;
    FileNameIsValid(p);
  }

  /** A name without separators is its own file name, and its parent is the
      empty path: a bare name lives in "the current directory" only implicitly. */
  lemma BareNameIsFileName(name: string)
    requires ValidFileName(name)
    ensures FileName(name) == Some(name)
    ensures Parent(name) == Some("")
  {
    PushValidName("", name);
    assert Push("", name) == name;
  }

  // Examples from the documentation of `std::path`, checked against the model.

  /** `Path::new("/foo/bar").parent() == Some("/foo")`. */
  lemma ParentOfNestedFile() ensures Parent("/foo/bar") == Some("/foo")
  {
    var p := "/foo/bar";
    assert BodyStart(p) == 1 by {
      assert HasRoot(p);
    }
    LastIndexAt(p, '/', 1, 4);
    assert p[5..] == "bar";
    assert ParseBack(p) == (4, Some(Normal("bar")));
    ReadsLastStep(p, 4, "bar");
    assert p[..4] == "/foo";
    FooIsTrimmed();
  }

  lemma FooIsTrimmed() ensures TrimRight("/foo") == "/foo"
  {
    var q := "/foo";
    assert BodyStart(q) == 1 by {
      assert HasRoot(q);
    }
    assert LastIndex(q, '/', 1).None?;
    assert q[1..] == "foo";
    assert ParseBack(q).1 == Some(Normal("foo"));
  }

  /** `Path::new("foo.txt/.").file_name() == Some("foo.txt")`. */
  lemma FileNameSkipsTrailingDot() ensures FileName("foo.txt/.") == Some("foo.txt")
  {
    var p := "foo.txt/.";
    LastIndexAt(p, '/', 0, 7);
    assert p[8..] == ".";
    assert p[..7] == "foo.txt";
    assert LastIndex("foo.txt", '/', 0).None?;
    assert "foo.txt"[0..] == "foo.txt";
  }

  /** `Path::new("foo/..").file_name() == None`. */
  lemma NoFileNameAfterDotDot() ensures FileName("foo/..") == None
  {
    var p := "foo/..";
    LastIndexAt(p, '/', 0, 3);
    assert p[4..] == "..";
  }

  /** A name whose only dot is its first character has no extension. */
  lemma DotFileHasNoExtension() ensures FileStem(".bashrc") == Some(".bashrc") && Extension(".bashrc") == None
  {
    var f := ".bashrc";
    BareNameIsFileName(f);
    LastIndexAt(f, '.', 0, 0);
    assert SplitAtDot(f) == (Some(f), None);
  }

  /** `Path::new("foo.tar.gz")` has stem "foo.tar" and extension "gz". */
  lemma ExtensionIsAfterLastDot() ensures FileStem("foo.tar.gz") == Some("foo.tar") && Extension("foo.tar.gz") == Some("gz")
  {
    var base, e := "foo.tar", "gz";
    assert base + "." + e == "foo.tar.gz";
    BareNameIsFileName(base + "." + e);
    StemAndExtensionOf(base + "." + e, base, e);
  }
}
