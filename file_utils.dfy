/**
 * The pure path helpers of `bcache::file` on a POSIX host: joining and
 * splitting paths, extracting an extension and lexical canonicalisation.
 * The separator is '/'.
 */
module FileUtils {
  import Strings

  const SEP: char := '/'

  /** Position of the last `c` in `s`, or -1 when there is none (`rfind`). */
  function LastIndexOf(s: string, c: char): (r: int)
    ensures -1 <= r < |s|
    ensures r == -1 <==> c !in s
    ensures r >= 0 ==> s[r] == c
    ensures forall k :: r < k < |s| ==> s[k] != c
    decreases |s|
  {
    if s == [] then -1
    else if s[|s| - 1] == c then |s| - 1
    else LastIndexOf(s[..|s| - 1], c)
  }

  /** `a` and `b` joined by exactly one separator; an empty side leaves the other unchanged. */
  function AppendPath(a: string, b: string): (r: string)
    ensures a == [] ==> r == b
    ensures b == [] ==> r == a
    ensures a != [] && b != [] ==>
              |r| == |a| + |b| + 1 && r[..|a|] == a && r[|a|] == SEP && r[|a| + 1..] == b
  {
    if a == [] then b
    else if b == [] then a
    else a + [SEP] + b
  }

  /** Everything before the last separator, or "" when there is none. */
  function GetDirPart(path: string): (dir: string)
    ensures SEP !in path ==> dir == []
    ensures SEP in path ==> |dir| < |path| && dir == path[..|dir|] && path[|dir|] == SEP
  {
    var i := LastIndexOf(path, SEP);
    if i < 0 then [] else path[..i]
  }

  /** Everything after the last separator, or the whole path when there is none. */
  function GetFilePart(path: string): (file: string)
    ensures SEP !in file
    ensures |file| <= |path| && file == path[|path| - |file|..]
    ensures SEP !in path ==> file == path
  {
    var i := LastIndexOf(path, SEP);
    if i < 0 then path else path[i + 1..]
  }

  /** The suffix of the file part that starts at its last '.', or "" when the file part has no '.'. */
  function GetExtension(path: string): (ext: string)
    ensures ext == [] || (ext[0] == '.' && '.' !in ext[1..] && SEP !in ext)
    ensures |ext| <= |path| && ext == path[|path| - |ext|..]
    ensures '.' !in GetFilePart(path) ==> ext == []
  {
    var file := GetFilePart(path);
    var i := LastIndexOf(file, '.');
    if i < 0 then [] else file[i..]
  }

  // ---------------------------------------------------------------------------
  // Properties of joining and splitting.

  /** Both sides non-empty: the result is one character longer than the two parts together. */
  lemma AppendPathLength(a: string, b: string)
    ensures a != [] && b != [] ==> |AppendPath(a, b)| == |a| + |b| + 1
    ensures AppendPath([], b) == b
    ensures AppendPath(a, []) == a
  {
  }

  lemma LastIndexOfAfterSeparator(a: string, c: char, b: string)
    requires c !in b
    ensures LastIndexOf(a + [c] + b, c) == |a|
  {
    var s := a + [c] + b;
    var r := LastIndexOf(s, c);
    assert s[|a|] == c;
  }

  /** Splitting a joined path gives back its two parts when the second has no separator. */
  lemma SplitAppendPath(a: string, b: string)
    requires b != [] && SEP !in b
    ensures GetDirPart(AppendPath(a, b)) == a
    ensures GetFilePart(AppendPath(a, b)) == b
  {
    if a != [] {
      LastIndexOfAfterSeparator(a, SEP, b);
      assert (a + [SEP] + b)[..|a|] == a;
      assert (a + [SEP] + b)[|a| + 1..] == b;
    }
  }

  /** The dir part, the last separator and the file part make up the whole path. */
  lemma DirAndFileRebuildPath(path: string)
    ensures SEP in path ==> path == GetDirPart(path) + [SEP] + GetFilePart(path)
    ensures SEP in path && GetDirPart(path) != [] && GetFilePart(path) != [] ==>
              AppendPath(GetDirPart(path), GetFilePart(path)) == path
    ensures SEP !in path ==> AppendPath(GetDirPart(path), GetFilePart(path)) == path
  {
    if SEP in path {
      var i := LastIndexOf(path, SEP);
      assert path == path[..i] + [SEP] + path[i + 1..];
    }
  }

  lemma LastIndexOfConcat(x: string, y: string, c: char)
    ensures c !in y ==> LastIndexOf(x + y, c) == LastIndexOf(x, c)
    ensures c in y ==> LastIndexOf(x + y, c) == |x| + LastIndexOf(y, c)
  {
    var s := x + y;
    var r := LastIndexOf(s, c);
    if c !in y {
      var q := LastIndexOf(x, c);
      assert forall k :: |x| <= k < |s| ==> s[k] == y[k - |x|];
      if q >= 0 {
        assert s[q] == c;
      }
      if r >= 0 && r < |x| {
        assert x[r] == c;
      }
    } else {
      var q := LastIndexOf(y, c);
      assert s[|x| + q] == c;
      assert forall k :: |x| <= k < |s| ==> s[k] == y[k - |x|];
    }
  }

  /** The file part is what follows the last separator (all of the path when there is none). */
  lemma FilePartAfterLastSeparator(path: string)
    ensures GetFilePart(path) == path[LastIndexOf(path, SEP) + 1..]
  {
  }

  lemma SliceOfConcat(x: string, y: string, k: nat)
    requires k <= |x|
    ensures (x + y)[k..] == x[k..] + y
  {
  }

  /** A separator-free suffix does not move the last separator. */
  lemma LastSeparatorBeforeSuffix(s: string, suffix: string)
    requires SEP !in suffix
    ensures LastIndexOf(s + suffix, SEP) == LastIndexOf(s, SEP)
  {
    LastIndexOfConcat(s, suffix, SEP);
  }

  /** Appending a separator-free suffix extends the file part by that suffix. */
  lemma FilePartOfSuffix(s: string, suffix: string)
    requires SEP !in suffix
    ensures GetFilePart(s + suffix) == GetFilePart(s) + suffix
  {
    var k := LastIndexOf(s, SEP) + 1;
    assert GetFilePart(s + suffix) == (s + suffix)[k..] by {
      LastSeparatorBeforeSuffix(s, suffix);
      FilePartAfterLastSeparator(s + suffix);
    }
    assert GetFilePart(s) == s[k..] by {
      FilePartAfterLastSeparator(s);
    }
    SliceOfConcat(s, suffix, k);
  }

  /** The last '.' of `x + ext` is the first character of `ext` when `ext` has no other dot. */
  lemma LastDotOfExtension(x: string, ext: string)
    requires |ext| >= 1 && ext[0] == '.' && '.' !in ext[1..]
    ensures LastIndexOf(x + ext, '.') == |x|
  {
    assert ext == [ext[0]] + ext[1..];
    LastIndexOfConcat([ext[0]], ext[1..], '.');
    LastIndexOfConcat(x, ext, '.');
  }

  /** A final dotted suffix without further dots or separators is the extension. */
  lemma ExtensionOfSuffix(s: string, ext: string)
    requires |ext| >= 1 && ext[0] == '.' && '.' !in ext[1..] && SEP !in ext
    ensures GetExtension(s + ext) == ext
  {
    FilePartOfSuffix(s, ext);
    LastDotOfExtension(GetFilePart(s), ext);
    assert (GetFilePart(s) + ext)[|GetFilePart(s)|..] == ext;
  }

  // ---------------------------------------------------------------------------
  // Canonicalisation.

  predicate IsAbsolute(path: string)
  {
    |path| > 0 && path[0] == SEP
  }

  /** Processes one segment against the stack of segments kept so far. */
  function Step(absolute: bool, stack: seq<string>, part: string): (r: seq<string>)
    ensures r == stack || r == stack + [part] || (|stack| > 0 && r == stack[..|stack| - 1])
    ensures part == [] || part == "." ==> r == stack
    ensures r == stack + [part] ==> part != [] && part != "." && (part == ".." ==> !absolute)
  {
    if part == [] || part == "." then stack
    else if part == ".." then
      if |stack| > 0 && stack[|stack| - 1] != ".." then stack[..|stack| - 1]
      else if absolute then stack
      else stack + [part]
    else stack + [part]
  }

  /** Processes the segments in order, starting from `stack`; each adds at most one entry. */
  function Fold(absolute: bool, stack: seq<string>, parts: seq<string>): (r: seq<string>)
    ensures |r| <= |stack| + |parts|
    decreases |parts|
  {
    if parts == [] then stack else Fold(absolute, Step(absolute, stack, parts[0]), parts[1..])
  }

  /** The segments joined by separators, with a leading separator for an absolute path. */
  function Render(absolute: bool, stack: seq<string>): (r: string)
    ensures absolute ==> IsAbsolute(r)
    ensures !absolute ==>
              (IsAbsolute(r) <==> |stack| > 0 && (if stack[0] == [] then |stack| > 1 else stack[0][0] == SEP))
  {
    if absolute then [SEP] + Strings.Join(stack, SEP) else Strings.Join(stack, SEP)
  }

  /**
   * Resolves "." and ".." segments and collapses repeated and trailing separators
   * without looking at the file system. A ".." at the root of an absolute path
   * stays at the root; a ".." that has nothing to undo in a relative path is kept.
   */
  function CanonicalizePath(path: string): (r: string)
    ensures IsAbsolute(r) == IsAbsolute(path)
  {
    var absolute := IsAbsolute(path);
    var parts := Strings.Split(path, SEP);
    FoldKeepsCanonical(absolute, [], parts);
    Render(absolute, Fold(absolute, [], parts))
  }

  /**
   * The segments of a canonical path: none empty, none ".", none containing the
   * separator, ".." only as a leading run, and no ".." at all in an absolute path.
   */
  ghost predicate CanonicalStack(absolute: bool, stack: seq<string>)
  {
    && (forall i :: 0 <= i < |stack| ==> stack[i] != [] && stack[i] != "." && SEP !in stack[i])
    && (forall i, j :: 0 <= i < j < |stack| && stack[j] == ".." ==> stack[i] == "..")
    && (absolute ==> forall i :: 0 <= i < |stack| ==> stack[i] != "..")
  }

  lemma StepKeepsCanonical(absolute: bool, stack: seq<string>, part: string)
    requires CanonicalStack(absolute, stack) && SEP !in part
    ensures CanonicalStack(absolute, Step(absolute, stack, part))
  {
  }

  lemma {:induction false} FoldKeepsCanonical(absolute: bool, stack: seq<string>, parts: seq<string>)
    requires CanonicalStack(absolute, stack)
    requires forall i :: 0 <= i < |parts| ==> SEP !in parts[i]
    ensures CanonicalStack(absolute, Fold(absolute, stack, parts))
    decreases |parts|
  {
    if parts != [] {
      StepKeepsCanonical(absolute, stack, parts[0]);
      FoldKeepsCanonical(absolute, Step(absolute, stack, parts[0]), parts[1..]);
    }
  }

  /** Folding the segments of an already canonical stack pushes each of them unchanged. */
  lemma {:induction false} FoldCanonicalIdentity(absolute: bool, stack: seq<string>, parts: seq<string>)
    requires CanonicalStack(absolute, stack + parts)
    ensures Fold(absolute, stack, parts) == stack + parts
    decreases |parts|
  {
    if parts != [] {
      var all := stack + parts;
      assert all[|stack|] == parts[0];
      if parts[0] == ".." && |stack| > 0 {
        assert all[|stack| - 1] == stack[|stack| - 1];
      }
      assert Step(absolute, stack, parts[0]) == stack + [parts[0]];
      assert (stack + [parts[0]]) + parts[1..] == all;
      FoldCanonicalIdentity(absolute, stack + [parts[0]], parts[1..]);
    }
  }

  lemma JoinStartsWithFirst(stack: seq<string>)
    requires |stack| > 0 && stack[0] != []
    ensures |Strings.Join(stack, SEP)| > 0 && Strings.Join(stack, SEP)[0] == stack[0][0]
  {
  }

  /**
   * Reading a rendered canonical stack back: the result is absolute exactly when
   * the stack was rendered as absolute, and canonicalising it folds to the same stack.
   */
  lemma {:induction false} CanonicalizeRender(absolute: bool, stack: seq<string>)
    requires CanonicalStack(absolute, stack)
    ensures IsAbsolute(Render(absolute, stack)) == absolute
    ensures CanonicalizePath(Render(absolute, stack)) == Render(absolute, stack)
  {
    var r := Render(absolute, stack);
    var joined := Strings.Join(stack, SEP);
    var parts := Strings.Split(joined, SEP);
    if stack == [] {
      assert parts == [[]];
    } else {
      Strings.SplitJoin(stack, SEP);
      assert parts == stack;
    }
    if absolute {
      assert r[1..] == joined;
      assert Strings.Split(r, SEP) == [[]] + parts;
      assert Step(absolute, [], []) == [];
      if stack == [] {
        assert Fold(absolute, [], [[]] + parts) == [];
      } else {
        FoldCanonicalIdentity(absolute, [], stack);
        assert ([[]] + stack)[1..] == stack;
        assert Fold(absolute, [], [[]] + stack) == Fold(absolute, [], stack);
        assert IsAbsolute(r);
        assert Fold(absolute, [], Strings.Split(r, SEP)) == [] + stack == stack;
      }
    } else {
      if stack == [] {
        assert Fold(absolute, [], [[]]) == [];
      } else {
        JoinStartsWithFirst(stack);
        assert stack[0][0] in stack[0];
        assert !IsAbsolute(r);
        FoldCanonicalIdentity(absolute, [], stack);
        assert [] + stack == stack;
        assert Fold(absolute, [], Strings.Split(r, SEP)) == stack;
      }
    }
  }

  /** The canonical form keeps absoluteness and has canonical segments. */
  lemma CanonicalizeShape(path: string)
    ensures IsAbsolute(CanonicalizePath(path)) == IsAbsolute(path)
    ensures exists stack :: CanonicalStack(IsAbsolute(path), stack) &&
                            CanonicalizePath(path) == Render(IsAbsolute(path), stack)
  {
    var absolute := IsAbsolute(path);
    var stack := Fold(absolute, [], Strings.Split(path, SEP));
    FoldKeepsCanonical(absolute, [], Strings.Split(path, SEP));
    CanonicalizeRender(absolute, stack);
  }

  /** Canonicalising twice is the same as canonicalising once. */
  lemma CanonicalizeIdempotent(path: string)
    ensures CanonicalizePath(CanonicalizePath(path)) == CanonicalizePath(path)
  {
    var absolute := IsAbsolute(path);
    var stack := Fold(absolute, [], Strings.Split(path, SEP));
    FoldKeepsCanonical(absolute, [], Strings.Split(path, SEP));
    CanonicalizeRender(absolute, stack);
  }

  /** Canonical paths never contain an empty segment, so "//" never occurs and only "/" ends in '/'. */
  lemma {:induction false} CanonicalHasNoEmptySegment(absolute: bool, stack: seq<string>)
    requires CanonicalStack(absolute, stack)
    ensures forall i :: 0 <= i < |Strings.Split(Render(absolute, stack), SEP)| ==>
              Strings.Split(Render(absolute, stack), SEP)[i] != [] || (absolute && i == 0) ||
              (stack == [] && i == |Strings.Split(Render(absolute, stack), SEP)| - 1)
  {
    var r := Render(absolute, stack);
    var joined := Strings.Join(stack, SEP);
    if stack != [] {
      Strings.SplitJoin(stack, SEP);
    } else {
      assert Strings.Split(joined, SEP) == [[]];
    }
    if absolute {
      assert r[1..] == joined;
      assert Strings.Split(r, SEP) == [[]] + Strings.Split(joined, SEP);
    }
  }

  // ---------------------------------------------------------------------------
  // Laws of canonicalisation: appending segments to a path.

  /** Folding two runs of segments is folding the second from where the first left the stack. */
  lemma {:induction false} FoldConcat(absolute: bool, stack: seq<string>, a: seq<string>, b: seq<string>)
    ensures Fold(absolute, stack, a + b) == Fold(absolute, Fold(absolute, stack, a), b)
    decreases |a|
  {
    if a == [] {
      assert a + b == b;
    } else {
      assert (a + b)[0] == a[0] && (a + b)[1..] == a[1..] + b;
      FoldConcat(absolute, Step(absolute, stack, a[0]), a[1..], b);
    }
  }

  /** Canonicalising a non-empty path with more segments appended: the new segments fold onto its stack. */
  lemma CanonicalizeAppend(p: string, t: string)
    requires p != []
    ensures var absolute := IsAbsolute(p);
      CanonicalizePath(p + [SEP] + t)
      == Render(absolute, Fold(absolute, Fold(absolute, [], Strings.Split(p, SEP)), Strings.Split(t, SEP)))
  {
    assert (p + [SEP] + t)[0] == p[0];
    Strings.SplitConcat(p, SEP, t);
    FoldConcat(IsAbsolute(p), [], Strings.Split(p, SEP), Strings.Split(t, SEP));
  }

  /** A trailing "/." changes nothing. */
  lemma CanonicalizeDropsTrailingDot(p: string)
    requires p != []
    ensures CanonicalizePath(p + "/.") == CanonicalizePath(p)
  {
    assert p + "/." == p + [SEP] + ".";
    CanonicalizeAppend(p, ".");
    Strings.SplitNoSeparator(".", SEP);
    assert ["."][1..] == [];
  }

  /** A trailing separator changes nothing. */
  lemma CanonicalizeDropsTrailingSeparator(p: string)
    requires p != []
    ensures CanonicalizePath(p + "/") == CanonicalizePath(p)
  {
    assert p + "/" == p + [SEP] + [];
    CanonicalizeAppend(p, []);
    var empty: string := [];
    assert [empty][1..] == [];
  }

  /** A plain name followed by ".." cancels out. */
  lemma CanonicalizeParentCancelsName(p: string, x: string)
    requires p != [] && PlainName(x)
    ensures CanonicalizePath(p + "/" + x + "/..") == CanonicalizePath(p)
  {
    assert p + "/" + x + "/.." == p + [SEP] + (x + [SEP] + "..");
    CanonicalizeAppend(p, x + [SEP] + "..");
    Strings.SplitAfterSegment(x, SEP, "..");
    Strings.SplitNoSeparator("..", SEP);
    var absolute := IsAbsolute(p);
    var stack := Fold(absolute, [], Strings.Split(p, SEP));
    assert Step(absolute, stack, x) == stack + [x];
    assert Step(absolute, stack + [x], "..") == stack;
    FoldStep(absolute, stack + [x], "..", [], stack);
    FoldStep(absolute, stack, x, [".."], stack);
  }

  // ---------------------------------------------------------------------------
  // The cases that file_utils_test.cpp checks.

  /** One step of folding: the first segment is applied to the stack, then the rest. */
  lemma FoldStep(absolute: bool, stack: seq<string>, first: string, rest: seq<string>, result: seq<string>)
    requires Fold(absolute, Step(absolute, stack, first), rest) == result
    ensures Fold(absolute, stack, [first] + rest) == result
  {
    assert ([first] + rest)[1..] == rest;
  }

  /** A segment that canonicalisation keeps as it is. */
  predicate PlainName(x: string)
  {
    x != [] && x != "." && x != ".." && SEP !in x
  }

  /** Canonicalising a path, once its segments and their fold are known. */
  lemma CanonicalizeBySegments(path: string, parts: seq<string>, absolute: bool, stack: seq<string>)
    requires Strings.Split(path, SEP) == parts && IsAbsolute(path) == absolute
    requires Fold(absolute, [], parts) == stack
    ensures CanonicalizePath(path) == Render(absolute, stack)
  {
  }

  lemma RenderPair(a: string, b: string)
    ensures Render(true, [a, b]) == "/" + a + "/" + b
  {
    assert [a, b][1..] == [b];
    assert Strings.Join([a, b], SEP) == a + [SEP] + b;
    assert "/" == [SEP];
  }

  lemma RenderSingle(b: string)
    ensures Render(true, [b]) == "/" + b
  {
  }

  lemma RenderRoot()
    ensures Render(true, []) == "/"
  {
  }

  // Each test case is proved for any two plain names in place of "foo" and "bar":
  // the path splits into its segments, the segments fold to the expected stack,
  // and the stack renders to the expected path.

  lemma DotSegmentsPath(a: string, b: string)
    ensures "/" + a + "/././" + b + "/." == "" + [SEP] + (a + [SEP] + ("." + [SEP] + ("." + [SEP] + (b + [SEP] + "."))))
  {
  }

  lemma DotSegmentsSplit(a: string, b: string)
    requires PlainName(a) && PlainName(b)
    ensures Strings.Split("/" + a + "/././" + b + "/.", SEP) == [""] + ([a] + (["."] + (["."] + ([b] + ["."]))))
  {
    DotSegmentsPath(a, b);
    var t5 := ".";
    var t4 := b + [SEP] + t5;
    var t3 := "." + [SEP] + t4;
    var t2 := "." + [SEP] + t3;
    var t1 := a + [SEP] + t2;
    Strings.SplitNoSeparator(t5, SEP);
    Strings.SplitAfterSegment(b, SEP, t5);
    Strings.SplitAfterSegment(".", SEP, t4);
    Strings.SplitAfterSegment(".", SEP, t3);
    Strings.SplitAfterSegment(a, SEP, t2);
    Strings.SplitAfterSegment("", SEP, t1);
  }

  lemma DotSegmentsFold(a: string, b: string)
    requires PlainName(a) && PlainName(b)
    ensures Fold(true, [], [""] + ([a] + (["."] + (["."] + ([b] + ["."]))))) == [a, b]
  {
    assert Fold(true, [a, b], ["."]) == [a, b] by {
      assert Step(true, [a, b], ".") == [a, b];
      FoldStep(true, [a, b], ".", [], [a, b]);
      assert ["."] + [] == ["."];
    }
    assert Fold(true, [a], [b] + ["."]) == [a, b] by {
      assert Step(true, [a], b) == [a, b];
      FoldStep(true, [a], b, ["."], [a, b]);
    }
    assert Fold(true, [a], ["."] + ([b] + ["."])) == [a, b] by {
      assert Step(true, [a], ".") == [a];
      FoldStep(true, [a], ".", [b] + ["."], [a, b]);
    }
    assert Fold(true, [a], ["."] + (["."] + ([b] + ["."]))) == [a, b] by {
      assert Step(true, [a], ".") == [a];
      FoldStep(true, [a], ".", ["."] + ([b] + ["."]), [a, b]);
    }
    assert Fold(true, [], [a] + (["."] + (["."] + ([b] + ["."])))) == [a, b] by {
      assert Step(true, [], a) == [a];
      FoldStep(true, [], a, ["."] + (["."] + ([b] + ["."])), [a, b]);
    }
    assert Fold(true, [], [""] + ([a] + (["."] + (["."] + ([b] + ["."]))))) == [a, b] by {
      assert Step(true, [], "") == [];
      FoldStep(true, [], "", [a] + (["."] + (["."] + ([b] + ["."]))), [a, b]);
    }
  }

  /** "/a/././b/." canonicalises to "/a/b". */
  lemma CanonicalizeDotSegments(a: string, b: string)
    requires PlainName(a) && PlainName(b)
    ensures CanonicalizePath("/" + a + "/././" + b + "/.") == "/" + a + "/" + b
  {
    DotSegmentsSplit(a, b);
    DotSegmentsFold(a, b);
    RenderPair(a, b);
    CanonicalizeBySegments("/" + a + "/././" + b + "/.", [""] + ([a] + (["."] + (["."] + ([b] + ["."])))), true, [a, b]);
  }

  lemma CanonicalizeExample1()
    ensures CanonicalizePath("/foo/././bar/.") == "/foo/bar"
  {
    CanonicalizeDotSegments("foo", "bar");
    assert "/" + "foo" + "/././" + "bar" + "/." == "/foo/././bar/.";
    assert "/" + "foo" + "/" + "bar" == "/foo/bar";
  }

  lemma ParentSegmentPath(a: string, b: string)
    ensures "/" + a + "/./../" + b + "/." == "" + [SEP] + (a + [SEP] + ("." + [SEP] + (".." + [SEP] + (b + [SEP] + "."))))
  {
  }

  lemma ParentSegmentSplit(a: string, b: string)
    requires PlainName(a) && PlainName(b)
    ensures Strings.Split("/" + a + "/./../" + b + "/.", SEP) == [""] + ([a] + (["."] + ([".."] + ([b] + ["."]))))
  {
    ParentSegmentPath(a, b);
    var t5 := ".";
    var t4 := b + [SEP] + t5;
    var t3 := ".." + [SEP] + t4;
    var t2 := "." + [SEP] + t3;
    var t1 := a + [SEP] + t2;
    Strings.SplitNoSeparator(t5, SEP);
    Strings.SplitAfterSegment(b, SEP, t5);
    Strings.SplitAfterSegment("..", SEP, t4);
    Strings.SplitAfterSegment(".", SEP, t3);
    Strings.SplitAfterSegment(a, SEP, t2);
    Strings.SplitAfterSegment("", SEP, t1);
  }

  lemma ParentSegmentFold(a: string, b: string)
    requires PlainName(a) && PlainName(b)
    ensures Fold(true, [], [""] + ([a] + (["."] + ([".."] + ([b] + ["."]))))) == [b]
  {
    assert Fold(true, [b], ["."]) == [b] by {
      assert Step(true, [b], ".") == [b];
      FoldStep(true, [b], ".", [], [b]);
      assert ["."] + [] == ["."];
    }
    assert Fold(true, [], [b] + ["."]) == [b] by {
      assert Step(true, [], b) == [b];
      FoldStep(true, [], b, ["."], [b]);
    }
    assert Fold(true, [a], [".."] + ([b] + ["."])) == [b] by {
      assert Step(true, [a], "..") == [];
      FoldStep(true, [a], "..", [b] + ["."], [b]);
    }
    assert Fold(true, [a], ["."] + ([".."] + ([b] + ["."]))) == [b] by {
      assert Step(true, [a], ".") == [a];
      FoldStep(true, [a], ".", [".."] + ([b] + ["."]), [b]);
    }
    assert Fold(true, [], [a] + (["."] + ([".."] + ([b] + ["."])))) == [b] by {
      assert Step(true, [], a) == [a];
      FoldStep(true, [], a, ["."] + ([".."] + ([b] + ["."])), [b]);
    }
    assert Fold(true, [], [""] + ([a] + (["."] + ([".."] + ([b] + ["."]))))) == [b] by {
      assert Step(true, [], "") == [];
      FoldStep(true, [], "", [a] + (["."] + ([".."] + ([b] + ["."]))), [b]);
    }
  }

  /** "/a/./../b/." canonicalises to "/b". */
  lemma CanonicalizeParentSegment(a: string, b: string)
    requires PlainName(a) && PlainName(b)
    ensures CanonicalizePath("/" + a + "/./../" + b + "/.") == "/" + b
  {
    ParentSegmentSplit(a, b);
    ParentSegmentFold(a, b);
    RenderSingle(b);
    CanonicalizeBySegments("/" + a + "/./../" + b + "/.", [""] + ([a] + (["."] + ([".."] + ([b] + ["."])))), true, [b]);
  }

  lemma CanonicalizeExample2()
    ensures CanonicalizePath("/foo/./../bar/.") == "/bar"
  {
    CanonicalizeParentSegment("foo", "bar");
    assert "/" + "foo" + "/./../" + "bar" + "/." == "/foo/./../bar/.";
    assert "/" + "bar" == "/bar";
  }

  lemma EmptySegmentsPath(a: string, b: string)
    ensures "/" + a + "/.///../" + b + "/.." == "" + [SEP] + (a + [SEP] + ("." + [SEP] + ("" + [SEP] + ("" + [SEP] + (".." + [SEP] + (b + [SEP] + ".."))))))
  {
  }

  lemma EmptySegmentsSplit(a: string, b: string)
    requires PlainName(a) && PlainName(b)
    ensures Strings.Split("/" + a + "/.///../" + b + "/..", SEP) == [""] + ([a] + (["."] + ([""] + ([""] + ([".."] + ([b] + [".."]))))))
  {
    EmptySegmentsPath(a, b);
    var t7 := "..";
    var t6 := b + [SEP] + t7;
    var t5 := ".." + [SEP] + t6;
    var t4 := "" + [SEP] + t5;
    var t3 := "" + [SEP] + t4;
    var t2 := "." + [SEP] + t3;
    var t1 := a + [SEP] + t2;
    Strings.SplitNoSeparator(t7, SEP);
    Strings.SplitAfterSegment(b, SEP, t7);
    Strings.SplitAfterSegment("..", SEP, t6);
    Strings.SplitAfterSegment("", SEP, t5);
    Strings.SplitAfterSegment("", SEP, t4);
    Strings.SplitAfterSegment(".", SEP, t3);
    Strings.SplitAfterSegment(a, SEP, t2);
    Strings.SplitAfterSegment("", SEP, t1);
  }

  lemma EmptySegmentsFold(a: string, b: string)
    requires PlainName(a) && PlainName(b)
    ensures Fold(true, [], [""] + ([a] + (["."] + ([""] + ([""] + ([".."] + ([b] + [".."]))))))) == []
  {
    assert Fold(true, [b], [".."]) == [] by {
      assert Step(true, [b], "..") == [];
      FoldStep(true, [b], "..", [], []);
      assert [".."] + [] == [".."];
    }
    assert Fold(true, [], [b] + [".."]) == [] by {
      assert Step(true, [], b) == [b];
      FoldStep(true, [], b, [".."], []);
    }
    assert Fold(true, [a], [".."] + ([b] + [".."])) == [] by {
      assert Step(true, [a], "..") == [];
      FoldStep(true, [a], "..", [b] + [".."], []);
    }
    assert Fold(true, [a], [""] + ([".."] + ([b] + [".."]))) == [] by {
      assert Step(true, [a], "") == [a];
      FoldStep(true, [a], "", [".."] + ([b] + [".."]), []);
    }
    assert Fold(true, [a], [""] + ([""] + ([".."] + ([b] + [".."])))) == [] by {
      assert Step(true, [a], "") == [a];
      FoldStep(true, [a], "", [""] + ([".."] + ([b] + [".."])), []);
    }
    assert Fold(true, [a], ["."] + ([""] + ([""] + ([".."] + ([b] + [".."]))))) == [] by {
      assert Step(true, [a], ".") == [a];
      FoldStep(true, [a], ".", [""] + ([""] + ([".."] + ([b] + [".."]))), []);
    }
    assert Fold(true, [], [a] + (["."] + ([""] + ([""] + ([".."] + ([b] + [".."])))))) == [] by {
      assert Step(true, [], a) == [a];
      FoldStep(true, [], a, ["."] + ([""] + ([""] + ([".."] + ([b] + [".."])))), []);
    }
    assert Fold(true, [], [""] + ([a] + (["."] + ([""] + ([""] + ([".."] + ([b] + [".."]))))))) == [] by {
      assert Step(true, [], "") == [];
      FoldStep(true, [], "", [a] + (["."] + ([""] + ([""] + ([".."] + ([b] + [".."]))))), []);
    }
  }

  /** "/a/.///../b/.." canonicalises to "/". */
  lemma CanonicalizeEmptySegments(a: string, b: string)
    requires PlainName(a) && PlainName(b)
    ensures CanonicalizePath("/" + a + "/.///../" + b + "/..") == "/"
  {
    EmptySegmentsSplit(a, b);
    EmptySegmentsFold(a, b);
    RenderRoot();
    CanonicalizeBySegments("/" + a + "/.///../" + b + "/..", [""] + ([a] + (["."] + ([""] + ([""] + ([".."] + ([b] + [".."])))))), true, []);
  }

  lemma CanonicalizeExample3()
    ensures CanonicalizePath("/foo/.///../bar/..") == "/"
  {
    CanonicalizeEmptySegments("foo", "bar");
    assert "/" + "foo" + "/.///../" + "bar" + "/.." == "/foo/.///../bar/..";
  }

  lemma TrailingSeparatorPath(a: string, b: string)
    ensures "/" + a + "/" + b + "/" == "" + [SEP] + (a + [SEP] + (b + [SEP] + ""))
  {
  }

  lemma TrailingSeparatorSplit(a: string, b: string)
    requires PlainName(a) && PlainName(b)
    ensures Strings.Split("/" + a + "/" + b + "/", SEP) == [""] + ([a] + ([b] + [""]))
  {
    TrailingSeparatorPath(a, b);
    var t3 := "";
    var t2 := b + [SEP] + t3;
    var t1 := a + [SEP] + t2;
    Strings.SplitNoSeparator(t3, SEP);
    Strings.SplitAfterSegment(b, SEP, t3);
    Strings.SplitAfterSegment(a, SEP, t2);
    Strings.SplitAfterSegment("", SEP, t1);
  }

  lemma TrailingSeparatorFold(a: string, b: string)
    requires PlainName(a) && PlainName(b)
    ensures Fold(true, [], [""] + ([a] + ([b] + [""]))) == [a, b]
  {
    assert Fold(true, [a, b], [""]) == [a, b] by {
      assert Step(true, [a, b], "") == [a, b];
      FoldStep(true, [a, b], "", [], [a, b]);
      assert [""] + [] == [""];
    }
    assert Fold(true, [a], [b] + [""]) == [a, b] by {
      assert Step(true, [a], b) == [a, b];
      FoldStep(true, [a], b, [""], [a, b]);
    }
    assert Fold(true, [], [a] + ([b] + [""])) == [a, b] by {
      assert Step(true, [], a) == [a];
      FoldStep(true, [], a, [b] + [""], [a, b]);
    }
    assert Fold(true, [], [""] + ([a] + ([b] + [""]))) == [a, b] by {
      assert Step(true, [], "") == [];
      FoldStep(true, [], "", [a] + ([b] + [""]), [a, b]);
    }
  }

  /** "/a/b/" canonicalises to "/a/b". */
  lemma CanonicalizeTrailingSeparator(a: string, b: string)
    requires PlainName(a) && PlainName(b)
    ensures CanonicalizePath("/" + a + "/" + b + "/") == "/" + a + "/" + b
  {
    TrailingSeparatorSplit(a, b);
    TrailingSeparatorFold(a, b);
    RenderPair(a, b);
    CanonicalizeBySegments("/" + a + "/" + b + "/", [""] + ([a] + ([b] + [""])), true, [a, b]);
  }

  lemma CanonicalizeExample4()
    ensures CanonicalizePath("/foo/bar/") == "/foo/bar"
  {
    CanonicalizeTrailingSeparator("foo", "bar");
    assert "/" + "foo" + "/" + "bar" + "/" == "/foo/bar/";
    assert "/" + "foo" + "/" + "bar" == "/foo/bar";
  }

  lemma PathPartExamples()
    ensures |AppendPath("hello", "world")| == 11
    ensures GetDirPart(AppendPath("hello", "world")) == "hello"
    ensures GetFilePart(AppendPath("hello", "world")) == "world"
    ensures GetDirPart("world") == "" && GetFilePart("world") == "world"
    ensures GetExtension(AppendPath("hello", "world") + ".ext") == ".ext"
    ensures GetExtension(AppendPath("hello", "world") + ".some.other.parts" + ".ext") == ".ext"
  {
    SplitAppendPath("hello", "world");
    ExtensionOfSuffix(AppendPath("hello", "world"), ".ext");
    ExtensionOfSuffix(AppendPath("hello", "world") + ".some.other.parts", ".ext");
  }
}
