/**
 * `resolve_safe_path`: turns the path of a request into a path under
 * `<current directory>/public`, keeping only the ordinary name components of
 * the request path, and answers it only if something exists there.
 */
module Utils {
  import opened Wrappers
  import opened Bytes
  import opened Files

  /** A component of a path, as `Path::components` classifies it on Unix. */
  datatype Component = RootDir | CurDir | ParentDir | Normal(name: Bytes)

  /** The segments between slashes that `Path::components` reports as names. */
  predicate IsName(segment: Bytes) {
    segment != [] && segment != "." && segment != ".."
  }

  function Classify(segments: seq<Bytes>): seq<Component> {
    if segments == [] then []
    else
      var s := segments[0];
      (if s == ".." then [ParentDir] else if IsName(s) then [Normal(s)] else [])
      + Classify(segments[1..])
  }

  /**
   * `Path::components` on Unix: a leading `/` is the root; empty segments and
   * `.` are skipped, except that a relative path starting with `.` reports it
   * once; `..` is the parent; everything else is a name.
   */
  function Components(p: Bytes): seq<Component> {
    var rooted := p != [] && p[0] == '/';
    var segments := Split(p, '/');
    (if rooted then [RootDir] else [])
    + (if !rooted && segments[0] == "." then [CurDir] else [])
    + Classify(segments)
  }

  function NormalNames(cs: seq<Component>): seq<Bytes> {
    if cs == [] then []
    else (if cs[0].Normal? then [cs[0].name] else []) + NormalNames(cs[1..])
  }

  /** The segments of a slash-separated text that are names, in order. */
  function Names(segments: seq<Bytes>): (r: seq<Bytes>)
    ensures forall i :: 0 <= i < |r| ==> IsName(r[i])
    ensures forall x :: x in r ==> x in segments
  {
    if segments == [] then []
    else (if IsName(segments[0]) then [segments[0]] else []) + Names(segments[1..])
  }

  /** The request path with everything but its `Component::Normal` parts filtered out. */
  function Sanitize(p: Bytes): seq<Bytes> {
    NormalNames(Components(p))
  }

  /** `env::current_dir().join("public")`. */
  function Base(cwd: Path): Path {
    cwd + ["public"]
  }

  /** `resolve_safe_path`: the sanitised path under the base, if it exists. */
  function ResolveSafePath(entries: map<Path, Node>, cwd: Path, p: Bytes): Option<Path> {
    var resolved := Base(cwd) + Sanitize(p);
    if resolved in entries then Some(resolved) else None
  }

  /** `Path::display` of an absolute path. */
  function Display(p: Path): Bytes {
    if p == [] then [] else "/" + p[0] + Display(p[1..])
  }

  // ---------------------------------------------------------------- properties

  lemma {:induction false} NormalNamesAppend(a: seq<Component>, b: seq<Component>)
    ensures NormalNames(a + b) == NormalNames(a) + NormalNames(b)
  {
    if a == [] {
      assert a + b == b;
    } else {
      var first: seq<Bytes> := if a[0].Normal? then [a[0].name] else [];
      NormalNamesAppend(a[1..], b);
      calc {
        NormalNames(a + b);
        { assert (a + b)[0] == a[0]; }
        first + NormalNames((a + b)[1..]);
        { assert (a + b)[1..] == a[1..] + b; }
        first + NormalNames(a[1..] + b);
        first + (NormalNames(a[1..]) + NormalNames(b));
      }
    }
  }

  lemma {:induction false} NamesAppend(a: seq<Bytes>, b: seq<Bytes>)
    ensures Names(a + b) == Names(a) + Names(b)
  {
    if a == [] {
      assert a + b == b;
    } else {
      NamesAppend(a[1..], b);
      assert (a + b)[0] == a[0];
      assert (a + b)[1..] == a[1..] + b;
    }
  }

  lemma {:induction false} NormalNamesOfClassify(segments: seq<Bytes>)
    ensures NormalNames(Classify(segments)) == Names(segments)
  {
    if segments != [] {
      var s := segments[0];
      var first: seq<Component> := if s == ".." then [ParentDir] else if IsName(s) then [Normal(s)] else [];
      NormalNamesOfClassify(segments[1..]);
      NormalNamesAppend(first, Classify(segments[1..]));
    }
  }

  /**
   * The sanitised path is exactly the segments of the request path that are
   * names, in order: the root, `.`, `..` and empty segments are dropped.
   */
  lemma SanitizeKeepsNames(p: Bytes)
    ensures Sanitize(p) == Names(Split(p, '/'))
  {
    var rooted := p != [] && p[0] == '/';
    var segments := Split(p, '/');
    var root: seq<Component> := if rooted then [RootDir] else [];
    var cur: seq<Component> := if !rooted && segments[0] == "." then [CurDir] else [];
    NormalNamesAppend(root + cur, Classify(segments));
    NormalNamesAppend(root, cur);
    NormalNamesOfClassify(segments);
  }

  /** No component of a sanitised path is empty, `.` or `..`, or holds a slash. */
  lemma SanitizeSafe(p: Bytes)
    ensures forall i :: 0 <= i < |Sanitize(p)| ==> IsName(Sanitize(p)[i]) && '/' !in Sanitize(p)[i]
  {
    SanitizeKeepsNames(p);
    var segments := Split(p, '/');
    forall i | 0 <= i < |Sanitize(p)|
      ensures IsName(Sanitize(p)[i]) && '/' !in Sanitize(p)[i]
    {
      var x := Sanitize(p)[i];
      assert x in segments;
      var j :| 0 <= j < |segments| && segments[j] == x;
    }
  }

  /** A single segment sanitises to itself when it is a name, and to nothing otherwise. */
  lemma SanitizeSegment(s: Bytes)
    requires '/' !in s
    ensures Sanitize(s) == if IsName(s) then [s] else []
  {
    SanitizeKeepsNames(s);
    assert Split(s, '/') == [s];
  }

  /** Sanitising distributes over a slash: `..` in the middle is dropped, not applied. */
  lemma SanitizeAppend(a: Bytes, b: Bytes)
    ensures Sanitize(a + "/" + b) == Sanitize(a) + Sanitize(b)
  {
    SanitizeKeepsNames(a + "/" + b);
    SanitizeKeepsNames(a);
    SanitizeKeepsNames(b);
    SplitAppend(a, b, '/');
    NamesAppend(Split(a, '/'), Split(b, '/'));
  }

  /** An absolute request path resolves exactly like the same path without its leading slash. */
  lemma SanitizeIgnoresRoot(p: Bytes)
    ensures Sanitize("/" + p) == Sanitize(p)
  {
    SanitizeAppend([], p);
    assert [] + "/" + p == "/" + p;
    SanitizeKeepsNames([]);
  }

  /** `a/../b` sanitises to `a/b`, not to `b`: a parent step is dropped, never applied. */
  lemma ParentIsDropped(a: Bytes, b: Bytes)
    requires IsName(a) && IsName(b) && '/' !in a && '/' !in b
    ensures Sanitize(a + "/../" + b) == [a, b]
  {
    var up: Bytes := "..";
    assert a + "/../" + b == a + "/" + up + "/" + b;
    SanitizeAppend(a + "/" + up, b);
    SanitizeAppend(a, up);
    SanitizeSegment(a);
    SanitizeSegment(up);
    SanitizeSegment(b);
  }

  lemma {:induction false} NamesOfNames(names: seq<Bytes>)
    requires forall i :: 0 <= i < |names| ==> IsName(names[i])
    ensures Names(names) == names
  {
    if names != [] {
      NamesOfNames(names[1..]);
    }
  }

  /** Sanitising the text of an already sanitised path changes nothing. */
  lemma SanitizeIdempotent(p: Bytes)
    ensures Sanitize(Join(Sanitize(p), '/')) == Sanitize(p)
  {
    var names := Sanitize(p);
    SanitizeSafe(p);
    SanitizeKeepsNames(Join(names, '/'));
    if names == [] {
      assert Split([], '/') == [[]];
    } else {
      SplitJoin(names, '/');
      NamesOfNames(names);
    }
  }

  /**
   * A resolved path exists, lies under `<cwd>/public`, and every component
   * below the base is a plain name, so it can never climb out of the base.
   */
  lemma ResolveStaysUnderBase(entries: map<Path, Node>, cwd: Path, p: Bytes)
    ensures ResolveSafePath(entries, cwd, p).Some? <==> Base(cwd) + Sanitize(p) in entries
    ensures match ResolveSafePath(entries, cwd, p)
      case None => true
      case Some(r) =>
        r in entries && |r| >= |cwd| + 1 && r[..|cwd| + 1] == Base(cwd)
        && forall i :: |cwd| + 1 <= i < |r| ==> IsName(r[i]) && '/' !in r[i]
  {
    SanitizeSafe(p);
    var r := Base(cwd) + Sanitize(p);
    assert r[..|cwd| + 1] == Base(cwd);
    assert forall i :: |cwd| + 1 <= i < |r| ==> r[i] == Sanitize(p)[i - |cwd| - 1];
  }
}
