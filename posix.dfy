/** Node's POSIX `path` module as the server uses it: a path read as the pieces between its
    '/' characters, the lexical normalisation behind `path.normalize` and `path.join`, and the
    canonical spelling of an absolute path. */
module Posix {

  /** A name that can stand as one entry of a directory: not empty, without '/', and not one
      of the special names "." and "..". */
  predicate Component(n: string)
  {
    n != "" && n != "." && n != ".." && '/' !in n
  }

  /** A piece that normalisation keeps: a component, or ".." left at the head of a relative
      path. */
  predicate Kept(x: string)
  {
    x != "" && x != "." && '/' !in x
  }

  predicate AllComponents(c: seq<string>)
  {
    forall i :: 0 <= i < |c| ==> Component(c[i])
  }

  predicate AllKept(c: seq<string>)
  {
    forall i :: 0 <= i < |c| ==> Kept(c[i])
  }

  predicate NoSlash(segs: seq<string>)
  {
    forall i :: 0 <= i < |segs| ==> '/' !in segs[i]
  }

  /** The pieces between the '/' characters of a path: at least one, possibly empty. */
  function Split(s: string): (r: seq<string>)
    ensures |r| >= 1 && NoSlash(r)
  {
    if s == [] then [""]
    else
      var rest := Split(s[1..]);
      if s[0] == '/' then [""] + rest
      else
        var r := [[s[0]] + rest[0]] + rest[1..];
        assert forall i :: 1 <= i < |r| ==> r[i] == rest[i];
        r
  }

  /** The pieces put back together with one '/' between neighbours. */
  function Intercalate(segs: seq<string>): string
  {
    if segs == [] then "" else if |segs| == 1 then segs[0]
    else segs[0] + "/" + Intercalate(segs[1..])
  }

  /** Splitting and putting back together gives the path back. */
  lemma {:induction false} IntercalateSplit(s: string)
    ensures Intercalate(Split(s)) == s
    decreases |s|
  {
    if s != [] {
      var rest := Split(s[1..]);
      IntercalateSplit(s[1..]);
      if s[0] == '/' {
        assert ([""] + rest)[1..] == rest;
        assert s == "/" + s[1..];
      } else {
        var r := [[s[0]] + rest[0]] + rest[1..];
        if |rest| == 1 {
          assert s == [s[0]] + s[1..];
        } else {
          assert r[1..] == rest[1..];
          assert Intercalate(rest) == rest[0] + "/" + Intercalate(rest[1..]);
          assert s == [s[0]] + s[1..];
        }
      }
    }
  }

  /** A '/' between two strings separates their pieces. */
  lemma {:induction false} SplitSlash(a: string, b: string)
    ensures Split(a + "/" + b) == Split(a) + Split(b)
    decreases |a|
  {
    var x := a + "/" + b;
    if a == [] {
      assert x[1..] == b;
    } else {
      assert x[0] == a[0] && x[1..] == a[1..] + "/" + b;
      SplitSlash(a[1..], b);
      var rest, tail := Split(x[1..]), Split(a[1..]);
      assert rest == tail + Split(b);
      if a[0] != '/' {
        assert rest[0] == tail[0];
        assert rest[1..] == tail[1..] + Split(b);
        assert Split(x) == [[a[0]] + tail[0]] + (tail[1..] + Split(b));
        assert Split(a) == [[a[0]] + tail[0]] + tail[1..];
      }
    }
  }

  /** A string without '/' is one piece. */
  lemma {:induction false} SplitNoSlash(a: string)
    requires '/' !in a
    ensures Split(a) == [a]
    decreases |a|
  {
    if a != [] {
      assert '/' !in a[1..] by {
        forall i | 0 <= i < |a[1..]| ensures a[1..][i] != '/' {
          assert a[1..][i] == a[i + 1];
        }
      }
      SplitNoSlash(a[1..]);
      assert a == [a[0]] + a[1..];
    }
  }

  /** Pieces without '/' put together split back into themselves. */
  lemma {:induction false} SplitIntercalate(segs: seq<string>)
    requires |segs| >= 1 && NoSlash(segs)
    ensures Split(Intercalate(segs)) == segs
    decreases |segs|
  {
    SplitNoSlash(segs[0]);
    if |segs| > 1 {
      assert NoSlash(segs[1..]) by {
        forall i | 0 <= i < |segs[1..]| ensures '/' !in segs[1..][i] {
          assert segs[1..][i] == segs[i + 1];
        }
      }
      SplitIntercalate(segs[1..]);
      SplitSlash(segs[0], Intercalate(segs[1..]));
      assert segs == [segs[0]] + segs[1..];
    }
  }

  /** One piece of normalisation, applied to the pieces kept so far: an empty piece and "."
      are dropped; ".." removes the last kept name, and when there is none a relative path
      keeps the ".." while an absolute one stays at the root; any other piece is kept. */
  function NormStep(stack: seq<string>, seg: string, relative: bool): seq<string>
  {
    if seg == "" || seg == "." then stack
    else if seg == ".." then
      if stack != [] && stack[|stack| - 1] != ".." then stack[..|stack| - 1]
      else if relative then stack + [".."]
      else stack
    else stack + [seg]
  }

  /** Normalisation of a run of pieces, starting from the pieces already kept. */
  function NormFrom(stack: seq<string>, segs: seq<string>, relative: bool): seq<string>
    decreases |segs|
  {
    if segs == [] then stack else NormFrom(NormStep(stack, segs[0], relative), segs[1..], relative)
  }

  /** The pieces a path keeps after normalisation. */
  function NormSegs(segs: seq<string>, relative: bool): seq<string>
  {
    NormFrom([], segs, relative)
  }

  lemma {:induction false} NormFromAppend(stack: seq<string>, x: seq<string>, y: seq<string>, relative: bool)
    ensures NormFrom(stack, x + y, relative) == NormFrom(NormFrom(stack, x, relative), y, relative)
    decreases |x|
  {
    if x == [] {
      assert x + y == y;
    } else {
      assert (x + y)[1..] == x[1..] + y;
      NormFromAppend(NormStep(stack, x[0], relative), x[1..], y, relative);
    }
  }

  lemma NormFromSnoc(stack: seq<string>, x: seq<string>, seg: string, relative: bool)
    ensures NormFrom(stack, x + [seg], relative) == NormStep(NormFrom(stack, x, relative), seg, relative)
  {
    NormFromAppend(stack, x, [seg], relative);
  }

  /** Components are kept as they are, one after the other. */
  lemma {:induction false} NormFromComponents(stack: seq<string>, c: seq<string>, relative: bool)
    requires AllComponents(c)
    ensures NormFrom(stack, c, relative) == stack + c
    decreases |c|
  {
    if c != [] {
      NormFromComponents(stack + [c[0]], c[1..], relative);
      assert stack + [c[0]] + c[1..] == stack + c;
    }
  }

  /** What normalisation keeps is a run of components, with ".." only at the head of a
      relative path. */
  lemma {:induction false} NormFromKept(stack: seq<string>, segs: seq<string>, relative: bool)
    requires AllKept(stack) && NoSlash(segs)
    requires !relative ==> AllComponents(stack)
    ensures AllKept(NormFrom(stack, segs, relative))
    ensures !relative ==> AllComponents(NormFrom(stack, segs, relative))
    decreases |segs|
  {
    if segs != [] {
      var next := NormStep(stack, segs[0], relative);
      assert AllKept(next) && (!relative ==> AllComponents(next)) by {
        if segs[0] != "" && segs[0] != "." && segs[0] != ".." {
          assert next == stack + [segs[0]];
        }
      }
      assert NoSlash(segs[1..]) by {
        forall i | 0 <= i < |segs[1..]| ensures '/' !in segs[1..][i] {
          assert segs[1..][i] == segs[i + 1];
        }
      }
      NormFromKept(next, segs[1..], relative);
    }
  }

  /** A path given from the root of the file system. */
  predicate Absolute(p: string)
  {
    p != "" && p[0] == '/'
  }

  /** path.normalize. */
  function Normalize(p: string): string
  {
    if p == "" then "."
    else
      var trailing := p[|p| - 1] == '/';
      var stack := NormSegs(Split(p), !Absolute(p));
      if stack == [] then (if Absolute(p) then "/" else if trailing then "./" else ".")
      else (if Absolute(p) then "/" else "") + Intercalate(stack) + (if trailing then "/" else "")
  }

  /** path.join of two paths: the empty ones are skipped, the rest are joined with '/' and
      the whole is normalised; joining nothing gives ".". */
  function PathJoin(a: string, b: string): string
  {
    if a == "" && b == "" then "."
    else if a == "" then Normalize(b)
    else if b == "" then Normalize(a)
    else Normalize(a + "/" + b)
  }

  /** The canonical spelling of an absolute path, given by its components. */
  function Render(c: seq<string>): string
  {
    if c == [] then "/" else "/" + Intercalate(c)
  }

  lemma SplitRender(c: seq<string>)
    requires AllComponents(c)
    ensures Split(Render(c)) == [""] + (if c == [] then [""] else c)
  {
    if c == [] {
      assert Render(c) == [] + "/" + [];
      SplitSlash([], []);
    } else {
      assert Render(c) == [] + "/" + Intercalate(c);
      SplitSlash([], Intercalate(c));
      SplitIntercalate(c);
    }
  }

  /** The pieces normalisation keeps from a canonical path are its components. */
  lemma NormRender(c: seq<string>, relative: bool)
    requires AllComponents(c)
    ensures NormSegs(Split(Render(c)), relative) == c
  {
    SplitRender(c);
    var segs := Split(Render(c));
    assert NormSegs(segs, relative) == NormFrom([], segs[1..], relative) by {
      assert NormStep([], segs[0], relative) == [];
    }
    if c == [] {
      assert segs[1..] == [""];
      assert NormFrom([], [""], relative) == NormFrom([], [], relative);
    } else {
      assert segs[1..] == c;
      NormFromComponents([], c, relative);
    }
  }

  /** Where path.join(a, ·) starts from: the root for an absolute path, the working directory
      otherwise; and the pieces of `a` it keeps. */
  function JoinBase(a: string): seq<string>
  {
    NormSegs(Split(a), !Absolute(a))
  }

  /** Joining a component to a path spells the pieces the path keeps, then the component,
      from the root when the path is absolute. */
  lemma JoinOnto(a: string, n: string)
    requires Component(n)
    ensures PathJoin(a, n) == (if Absolute(a) then "/" else "") + Intercalate(JoinBase(a) + [n])
  {
    SplitNoSlash(n);
    assert n[0] in n && n[|n| - 1] in n;
    if a == "" {
      NormFromComponents([], [n], true);
      assert NormFrom([], [""], true) == NormFrom([], [], true);
      assert JoinBase(a) + [n] == [n];
    } else {
      var p := a + "/" + n;
      assert p[0] == a[0] && p[|p| - 1] == n[|n| - 1];
      SplitSlash(a, n);
      NormFromSnoc([], Split(a), n, !Absolute(a));
      assert NormSegs(Split(p), !Absolute(p)) == JoinBase(a) + [n];
    }
  }

  /** What a path keeps after normalisation, followed by a component, are pieces that
      normalisation keeps. */
  lemma JoinBaseKept(a: string, n: string)
    requires Component(n)
    ensures AllKept(JoinBase(a) + [n]) && NoSlash(JoinBase(a) + [n])
  {
    var s := JoinBase(a);
    NormFromKept([], Split(a), !Absolute(a));
    forall i | 0 <= i < |s + [n]| ensures Kept((s + [n])[i]) {
      if i < |s| { assert Kept(s[i]); }
    }
  }

  /** Kept pieces put together start with the first piece, so neither empty nor with '/'. */
  lemma IntercalateHead(segs: seq<string>)
    requires |segs| >= 1 && AllKept(segs)
    ensures Intercalate(segs) != "" && Intercalate(segs)[0] != '/'
  {
    var body := Intercalate(segs);
    assert Kept(segs[0]);
    assert segs[0][0] in segs[0];
    if |segs| > 1 {
      assert body == segs[0] + "/" + Intercalate(segs[1..]);
    }
    assert body[0] == segs[0][0];
  }

  /** Kept pieces put together, from the root or not, split back into themselves. */
  lemma SplitSpelled(absolute: bool, segs: seq<string>)
    requires |segs| >= 1 && AllKept(segs) && NoSlash(segs)
    ensures var p := (if absolute then "/" else "") + Intercalate(segs);
      p != "" && Absolute(p) == absolute &&
      Split(p) == (if absolute then [""] else []) + segs
  {
    SplitIntercalate(segs);
    IntercalateHead(segs);
    var body := Intercalate(segs);
    if absolute {
      assert "/" + body == [] + "/" + body;
      SplitSlash([], body);
    } else {
      assert "" + body == body;
    }
  }

  /** Joining a component to a path: the result spells the pieces the path keeps, then the
      component, from where the path starts. */
  lemma JoinComponent(a: string, n: string)
    requires Component(n)
    ensures PathJoin(a, n) != "" && Absolute(PathJoin(a, n)) == Absolute(a)
    ensures Split(PathJoin(a, n)) == (if Absolute(a) then [""] else []) + JoinBase(a) + [n]
  {
    JoinOnto(a, n);
    JoinBaseKept(a, n);
    SplitSpelled(Absolute(a), JoinBase(a) + [n]);
  }

  /** Joining a component to a canonical path gives the canonical path one level down. */
  lemma JoinRender(c: seq<string>, n: string)
    requires AllComponents(c) && Component(n)
    ensures PathJoin(Render(c), n) == Render(c + [n])
  {
    var p := Render(c) + "/" + n;
    assert n[|n| - 1] in n;
    assert p[0] == '/' && p[|p| - 1] == n[|n| - 1];
    SplitSlash(Render(c), n);
    SplitNoSlash(n);
    NormFromSnoc([], Split(Render(c)), n, false);
    NormRender(c, false);
    assert NormSegs(Split(p), false) == c + [n];
    assert Normalize(p) == "/" + Intercalate(c + [n]) + "";
  }

  /** "." after a canonical path names that same path. */
  lemma JoinDot(c: seq<string>)
    requires AllComponents(c)
    ensures PathJoin(Render(c), ".") == Render(c)
  {
    SplitSlash(Render(c), ".");
    SplitNoSlash(".");
    SplitRender(c);
    NormFromSnoc([], Split(Render(c)), ".", false);
    NormRender(c, false);
  }

  /** ".." after a canonical path names its parent, and the root is its own parent. */
  lemma JoinDotDot(c: seq<string>)
    requires AllComponents(c)
    ensures PathJoin(Render(c), "..") == Render(if c == [] then [] else c[..|c| - 1])
  {
    SplitSlash(Render(c), "..");
    SplitNoSlash("..");
    SplitRender(c);
    NormFromSnoc([], Split(Render(c)), "..", false);
    NormRender(c, false);
    if c != [] {
      var up := c[..|c| - 1];
      assert AllComponents(up) by {
        forall i | 0 <= i < |up| ensures Component(up[i]) {
          assert up[i] == c[i];
        }
      }
    }
  }

  /** Two non-empty paths that start alike, end alike and keep the same pieces normalise to
      the same path. */
  lemma NormalizeAlike(p: string, q: string)
    requires p != "" && q != "" && Absolute(p) == Absolute(q) && p[|p| - 1] == q[|q| - 1]
    requires NormSegs(Split(p), !Absolute(p)) == NormSegs(Split(q), !Absolute(q))
    ensures Normalize(p) == Normalize(q)
  {
  }

  /** A separator at the end of the folder path does not change where a name is joined. */
  lemma JoinTrailingSlash(a: string, n: string)
    requires a != "" && n != ""
    ensures PathJoin(a + "/", n) == PathJoin(a, n)
  {
    var rel := !Absolute(a);
    var p := (a + "/") + "/" + n;
    var q := a + "/" + n;
    assert Absolute(p) == Absolute(a) && Absolute(q) == Absolute(a) by {
      assert p[0] == a[0] && q[0] == a[0];
    }
    assert p[|p| - 1] == q[|q| - 1];
    assert Split(p) == (Split(a) + [""]) + Split(n) by {
      SplitSlash(a + "/", n);
      SplitSlash(a, "");
      assert a + "/" == a + "/" + "";
    }
    assert Split(q) == Split(a) + Split(n) by {
      SplitSlash(a, n);
    }
    assert NormSegs(Split(p), rel) == NormSegs(Split(q), rel) by {
      NormFromAppend([], Split(a) + [""], Split(n), rel);
      NormFromAppend([], Split(a), Split(n), rel);
      NormFromSnoc([], Split(a), "", rel);
    }
    NormalizeAlike(p, q);
  }
}
