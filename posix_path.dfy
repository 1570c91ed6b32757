/** Node's `path.posix.join` and `path.posix.normalize`: the path arithmetic both scripts do
    when they name a product directory, an image file, a rewritten link or an asset file. */
module PosixPath {
  import opened Strings

  /** A segment that normalisation keeps as it is: not empty, not `.` or `..`, no `/`. */
  predicate Plain(seg: string) {
    seg != "" && seg != "." && seg != ".." && '/' !in seg
  }

  /** Segments as normalisation leaves them: plain or `..`, every `..` at the front, and
      no `..` at all in an absolute path (there is nothing above the root). */
  predicate Canonical(xs: seq<string>, absolute: bool) {
    && (forall k :: 0 <= k < |xs| ==> xs[k] == ".." || Plain(xs[k]))
    && (forall k :: 0 < k < |xs| && xs[k] == ".." ==> xs[k - 1] == "..")
    && (absolute ==> forall k :: 0 <= k < |xs| ==> xs[k] != "..")
  }

  /** One segment of normalizeString: empty and `.` segments vanish, `..` removes the last
      segment unless that is `..` itself, in which case a relative path keeps the `..`. */
  function Step(res: seq<string>, seg: string, absolute: bool): seq<string> {
    if seg == "" || seg == "." then res
    else if seg == ".." then
      if |res| > 0 && res[|res| - 1] != ".." then res[..|res| - 1]
      else if absolute then res
      else res + [".."]
    else res + [seg]
  }

  /** normalizeString over the `/`-separated segments, left to right. */
  function Resolve(segs: seq<string>, absolute: bool): (r: seq<string>)
    ensures (forall k :: 0 <= k < |segs| ==> '/' !in segs[k]) ==> Canonical(r, absolute)
  {
    if segs == [] then []
    else
      var res := Resolve(segs[..|segs| - 1], absolute);
      assert forall k :: 0 <= k < |res| - 1 ==> res[..|res| - 1][k] == res[k];
      Step(res, segs[|segs| - 1], absolute)
  }

  /** The string normalize builds from the resolved segments: `/` in front of an absolute
      path, `/` behind when the input ended with one, `.` for an empty relative result. */
  function Render(segs: seq<string>, absolute: bool, trailing: bool): string {
    var body := Join(segs, '/');
    if body == [] then (if absolute then "/" else if trailing then "./" else ".")
    else (if absolute then "/" else "") + body + (if trailing then "/" else "")
  }

  /** `path.posix.normalize(p)`. */
  function Normalize(p: string): string {
    if p == [] then "."
    else Render(Resolve(Split(p, '/'), p[0] == '/'), p[0] == '/', p[|p| - 1] == '/')
  }

  function NonEmpty(args: seq<string>): (r: seq<string>)
    ensures forall k :: 0 <= k < |r| ==> r[k] != ""
  {
    if args == [] then []
    else if args[0] == "" then NonEmpty(args[1..])
    else [args[0]] + NonEmpty(args[1..])
  }

  /** `path.posix.join(...args)`: the non-empty arguments joined by `/`, then normalised
      (no argument left gives `.`, which is also what normalising "" gives). */
  function PathJoin(args: seq<string>): string {
    Normalize(Join(NonEmpty(args), '/'))
  }

  // ---------------------------------------------------------------------------
  // Normalisation is idempotent

  /** Canonical segments are a fixed point of resolution. */
  lemma {:induction false} ResolveCanonical(xs: seq<string>, absolute: bool)
    requires Canonical(xs, absolute)
    ensures Resolve(xs, absolute) == xs
    decreases |xs|
  {
    if xs != [] {
      var init, last := xs[..|xs| - 1], xs[|xs| - 1];
      assert Canonical(init, absolute);
      ResolveCanonical(init, absolute);
      if last == ".." {
        assert !absolute && (init != [] ==> init[|init| - 1] == "..");
      }
      StepCanonical(init, last, absolute);
      assert init + [last] == xs;
    }
  }

  /** A segment that keeps the segments canonical is appended as it is. */
  lemma StepCanonical(init: seq<string>, last: string, absolute: bool)
    requires last == ".." || Plain(last)
    requires last == ".." ==> !absolute && (init != [] ==> init[|init| - 1] == "..")
    ensures Step(init, last, absolute) == init + [last]
  {
  }

  /** A leading empty segment (the one before an absolute path's `/`) is dropped. */
  lemma {:induction false} ResolveLeadingEmpty(xs: seq<string>, absolute: bool)
    requires forall k :: 0 <= k < |xs| ==> '/' !in xs[k]
    ensures Resolve([""] + xs, absolute) == Resolve(xs, absolute)
    decreases |xs|
  {
    if xs == [] {
      assert [""][..0] == [];
    } else {
      var init := xs[..|xs| - 1];
      var ys := [""] + xs;
      assert ys[..|ys| - 1] == [""] + init;
      assert ys[|ys| - 1] == xs[|xs| - 1];
      ResolveLeadingEmpty(init, absolute);
    }
  }

  /** The first and last characters of a join of non-empty, separator-free pieces. */
  lemma {:induction false} JoinEnds(xs: seq<string>, sep: char)
    requires |xs| > 0 && forall k :: 0 <= k < |xs| ==> xs[k] != "" && sep !in xs[k]
    ensures var j := Join(xs, sep); |j| > 0 && j[0] == xs[0][0] && j[|j| - 1] == xs[|xs| - 1][|xs[|xs| - 1]| - 1]
    decreases |xs|
  {
    if |xs| > 1 {
      JoinEnds(xs[..|xs| - 1], sep);
    }
  }

  /** Normalising an already normalised path changes nothing. */
  lemma NormalizeIdempotent(p: string)
    ensures Normalize(Normalize(p)) == Normalize(p)
  {
    if p == [] {
      NormalizeDot();
    } else {
      var absolute := p[0] == '/';
      var trailing := p[|p| - 1] == '/';
      var r := Resolve(Split(p, '/'), absolute);
      SplitSpec(p, '/');
      if r == [] {
        if absolute { NormalizeRoot(); }
        else if trailing { NormalizeDotSlash(); }
        else { NormalizeDot(); }
      } else {
        NormalizeBody(r, absolute, trailing);
      }
    }
  }

  lemma SplitEmpty(sep: char)
    ensures Split("", sep) == [""]
  {
  }

  /** A one-character string other than the separator is a single piece. */
  lemma SplitOneChar(c: char, sep: char)
    requires c != sep
    ensures Split([c], sep) == [[c]]
  {
    assert [c][1..] == "";
    var t := Split([c][1..], sep);
    assert t == [""];
    assert [c] + t[0] == [c];
  }

  lemma NormalizeDot()
    ensures Normalize(".") == "."
  {
    SplitOneChar('.', '/');
    assert "." == ['.'];
    assert ["."][..0] == [];
    assert Resolve(["."], false) == [];
  }

  lemma SplitSlash()
    ensures Split("/", '/') == ["", ""]
  {
    assert "/"[0] == '/' && "/"[1..] == "";
    SplitEmpty('/');
  }

  lemma NormalizeRoot()
    ensures Normalize("/") == "/"
  {
    SplitSlash();
    assert ["", ""][..1] == [""];
    assert [""][..0] == [];
    assert Resolve(["", ""], true) == [];
  }

  lemma NormalizeDotSlash()
    ensures Normalize("./") == "./"
  {
    SplitOneChar('.', '/');
    assert "./" == ['.'] + ['/'] + "";
    SplitAppend(['.'], "", '/');
    assert [".", ""][..1] == ["."];
    assert ["."][..0] == [];
    assert Resolve([".", ""], false) == [];
  }

  /** A leading `/` adds an empty first piece. */
  lemma SplitRooted(x: string, sep: char)
    ensures Split([sep] + x, sep) == [""] + Split(x, sep)
  {
    assert ([sep] + x)[1..] == x;
  }

  /** A trailing `/` adds an empty last piece. */
  lemma SplitTrailing(x: string, sep: char)
    ensures Split(x + [sep], sep) == Split(x, sep) + [""]
  {
    assert x + [sep] == x + [sep] + "";
    SplitAppend(x, "", sep);
  }

  lemma ResolveTrailingEmpty(xs: seq<string>, absolute: bool)
    requires forall k :: 0 <= k < |xs| ==> '/' !in xs[k]
    ensures Resolve(xs + [""], absolute) == Resolve(xs, absolute)
  {
    assert (xs + [""])[..|xs|] == xs;
  }

  /** The non-degenerate case of idempotence: a leading `/`, canonical segments and a
      trailing `/` come back unchanged. */
  lemma NormalizeBody(r: seq<string>, absolute: bool, trailing: bool)
    requires r != [] && Canonical(r, absolute)
    ensures Normalize(Render(r, absolute, trailing)) == Render(r, absolute, trailing)
  {
    var j := Join(r, '/');
    var mid := if trailing then j + ['/'] else j;
    var q := if absolute then ['/'] + mid else mid;
    ResolveBody(r, absolute, trailing);
    assert q == Render(r, absolute, trailing);
    assert q[0] == '/' <==> absolute;
    assert q[|q| - 1] == '/' <==> trailing;
    assert Resolve(Split(q, '/'), absolute) == r by {
      if absolute {
        SplitSpec(mid, '/');
        SplitRooted(mid, '/');
        ResolveLeadingEmpty(Split(mid, '/'), absolute);
      }
    }
    NormalizeResolved(q, r, absolute, trailing);
  }

  /** A path whose ends and segments are known normalises to their rendering. */
  lemma NormalizeResolved(q: string, r: seq<string>, absolute: bool, trailing: bool)
    requires q != [] && (q[0] == '/' <==> absolute) && (q[|q| - 1] == '/' <==> trailing)
    requires Resolve(Split(q, '/'), absolute) == r
    ensures Normalize(q) == Render(r, absolute, trailing)
  {
  }

  /** The rendered body, with its trailing `/` if any, resolves back to the segments. */
  lemma ResolveBody(r: seq<string>, absolute: bool, trailing: bool)
    requires r != [] && Canonical(r, absolute)
    ensures var j := Join(r, '/');
            var mid := if trailing then j + ['/'] else j;
            && mid != [] && mid[0] == j[0] && mid[0] != '/'
            && (mid[|mid| - 1] == '/' <==> trailing)
            && Resolve(Split(mid, '/'), absolute) == r
  {
    var j := Join(r, '/');
    assert forall k :: 0 <= k < |r| ==> r[k] != "" && '/' !in r[k];
    JoinEnds(r, '/');
    SplitJoin(r, '/');
    if trailing {
      SplitTrailing(j, '/');
      ResolveTrailingEmpty(r, absolute);
    }
    ResolveCanonical(r, absolute);
  }

  // ---------------------------------------------------------------------------
  // Joining a file name onto a directory

  lemma NonEmptyPair(a: string, b: string)
    ensures NonEmpty([a, b]) == (if a == "" then [] else [a]) + (if b == "" then [] else [b])
  {
    assert [a, b][1..] == [b] && [b][1..] == [];
    assert NonEmpty([b]) == (if b == "" then [] else [b]);
  }

  lemma JoinSnoc(xs: seq<string>, x: string, sep: char)
    ensures Join(xs + [x], sep) == if xs == [] then x else Join(xs, sep) + [sep] + x
  {
    assert (xs + [x])[..|xs|] == xs;
  }

  lemma ResolveSnocPlain(xs: seq<string>, name: string, absolute: bool)
    requires Plain(name) && forall k :: 0 <= k < |xs| ==> '/' !in xs[k]
    ensures Resolve(xs + [name], absolute) == Resolve(xs, absolute) + [name]
  {
    assert (xs + [name])[..|xs|] == xs;
  }

  lemma RenderSnoc(r: seq<string>, name: string, absolute: bool)
    requires Plain(name)
    ensures Render(r + [name], absolute, false)
         == (if absolute then "/" else "") + (if r == [] then "" else Join(r, '/') + "/") + name
  {
    JoinSnoc(r, name, '/');
  }

  /** What `path.join(dir, name)` puts in front of a plain file name. */
  function DirPrefix(dir: string): string {
    if dir == [] then ""
    else
      var r := Resolve(Split(dir, '/'), dir[0] == '/');
      (if dir[0] == '/' then "/" else "") + (if r == [] then "" else Join(r, '/') + "/")
  }

  /** `path.join(dir, name)` with a plain `name` ends with exactly that name, after a prefix
      that depends on `dir` alone. */
  lemma JoinFileName(dir: string, name: string)
    requires Plain(name)
    ensures PathJoin([dir, name]) == DirPrefix(dir) + name
  {
    NonEmptyPair(dir, name);
    SplitNoSep(name, '/');
    assert name[0] != '/' && name[|name| - 1] != '/';
    if dir == [] {
      assert Join([name], '/') == name;
      ResolveSnocPlain([], name, false);
      assert [] + [name] == [name];
      RenderSnoc([], name, false);
    } else {
      JoinSnoc([dir], name, '/');
      assert [dir] + [name] == [dir, name];
      var p := dir + ['/'] + name;
      assert Join([dir, name], '/') == p;
      SplitAppend(dir, name, '/');
      var absolute := dir[0] == '/';
      assert p[0] == dir[0] && p[|p| - 1] == name[|name| - 1];
      SplitSpec(dir, '/');
      ResolveSnocPlain(Split(dir, '/'), name, absolute);
      RenderSnoc(Resolve(Split(dir, '/'), absolute), name, absolute);
    }
  }

  /** Distinct plain file names in one directory give distinct paths. */
  lemma JoinFileNameInjective(dir: string, a: string, b: string)
    requires Plain(a) && Plain(b) && a != b
    ensures PathJoin([dir, a]) != PathJoin([dir, b])
  {
    JoinFileName(dir, a);
    JoinFileName(dir, b);
    var d := DirPrefix(dir);
    assert (d + a)[|d|..] == a && (d + b)[|d|..] == b;
  }

  lemma {:induction false} NonEmptySnoc(args: seq<string>, name: string)
    requires name != ""
    ensures NonEmpty(args + [name]) == NonEmpty(args) + [name]
    decreases |args|
  {
    if args == [] {
      assert [] + [name] == [name] && [name][1..] == [];
    } else {
      assert (args + [name])[1..] == args[1..] + [name];
      NonEmptySnoc(args[1..], name);
    }
  }

  /** Joining several directory parts and then a plain name is joining the parts first. */
  lemma JoinArgsFileName(args: seq<string>, name: string)
    requires Plain(name)
    ensures PathJoin(args + [name]) == PathJoin([Join(NonEmpty(args), '/'), name])
  {
    JoinArgsName(args, name);
  }

  /** What JoinArgsFileName normalises: the same joined text on both sides. */
  lemma JoinArgsName(args: seq<string>, name: string)
    requires Plain(name)
    ensures Join(NonEmpty(args + [name]), '/') == Join(NonEmpty([Join(NonEmpty(args), '/'), name]), '/')
  {
    var xs := NonEmpty(args);
    var dir := Join(xs, '/');
    NonEmptySnoc(args, name);
    JoinSnoc(xs, name, '/');
    NonEmptyPair(dir, name);
    if xs == [] {
      assert Join([name], '/') == name;
      assert dir == "";
    } else {
      assert dir != "" by {
        if |xs| == 1 { assert xs[0] != ""; }
      }
      JoinSnoc([dir], name, '/');
      assert [dir] + [name] == [dir, name];
      assert Join(xs + [name], '/') == Join([dir, name], '/');
    }
  }

  /** Two plain names under the same directory parts give different paths. */
  lemma JoinArgsFileNameInjective(args: seq<string>, a: string, b: string)
    requires Plain(a) && Plain(b) && a != b
    ensures PathJoin(args + [a]) != PathJoin(args + [b])
  {
    JoinArgsFileName(args, a);
    JoinArgsFileName(args, b);
    JoinFileNameInjective(Join(NonEmpty(args), '/'), a, b);
  }

  // ---------------------------------------------------------------------------
  // Joining onto a relative base directory

  /** The kept segments when no `..` appears: empty and `.` segments dropped. */
  function Keep(xs: seq<string>): seq<string> {
    if xs == [] then []
    else
      var init := Keep(xs[..|xs| - 1]);
      var last := xs[|xs| - 1];
      if last == "" || last == "." then init else init + [last]
  }

  lemma {:induction false} ResolveWithoutDotDot(xs: seq<string>, absolute: bool)
    requires forall k :: 0 <= k < |xs| ==> '/' !in xs[k] && xs[k] != ".."
    ensures Resolve(xs, absolute) == Keep(xs)
    decreases |xs|
  {
    if xs != [] {
      ResolveWithoutDotDot(xs[..|xs| - 1], absolute);
    }
  }

  lemma {:induction false} KeepAppend(a: seq<string>, b: seq<string>)
    ensures Keep(a + b) == Keep(a) + Keep(b)
    decreases |b|
  {
    if b == [] {
      assert a + b == a;
    } else {
      var init := b[..|b| - 1];
      assert (a + b)[..|a + b| - 1] == a + init;
      KeepAppend(a, init);
    }
  }

  lemma {:induction false} KeepPlain(xs: seq<string>)
    requires forall k :: 0 <= k < |xs| ==> Plain(xs[k])
    ensures Keep(xs) == xs
    decreases |xs|
  {
    if xs != [] {
      KeepPlain(xs[..|xs| - 1]);
    }
  }

  /** Joining a non-empty value onto a plain base: the joined string splits into the base
      and the value's own segments. */
  lemma JoinBaseSplit(base: string, v: string)
    requires Plain(base) && v != []
    ensures PathJoin([base, v]) == Normalize(base + "/" + v)
    ensures Split(base + "/" + v, '/') == [base] + Split(v, '/')
  {
    NonEmptyPair(base, v);
    JoinSnoc([base], v, '/');
    assert [base] + [v] == [base, v];
    assert Join([base], '/') == base;
    assert base + "/" + v == base + ['/'] + v;
    BaseSplit(base, v);
  }

  lemma BaseSplit(base: string, v: string)
    requires Plain(base)
    ensures Split(base + "/" + v, '/') == [base] + Split(v, '/')
  {
    assert base + "/" + v == base + ['/'] + v;
    SplitAppend(base, v, '/');
    SplitNoSep(base, '/');
  }


  /** A plain base followed by resolved relative segments renders as the base, then `/`
      or the end. */
  lemma RenderUnder(base: string, ks: seq<string>, trailing: bool)
    requires Plain(base)
    ensures var r := Render([base] + ks, false, trailing);
            StartsWith(r, base) && (|r| == |base| || r[|base|] == '/')
  {
    JoinCons(base, ks, '/');
  }

  lemma KeepSingle(base: string)
    requires Plain(base)
    ensures Keep([base]) == [base]
  {
    assert [base][..0] == [];
  }

  /** Without a `..` segment, a value joined onto a plain base stays inside that base:
      the result is the base itself or begins with the base and a `/`. */
  lemma JoinStaysUnder(base: string, v: string)
    requires Plain(base)
    requires ".." !in Split(v, '/')
    ensures var r := PathJoin([base, v]); StartsWith(r, base) && (|r| == |base| || r[|base|] == '/')
  {
    SplitNoSep(base, '/');
    assert base[0] != '/';
    if v == [] {
      NonEmptyPair(base, v);
      assert Join([base], '/') == base;
      ResolveSnocPlain([], base, false);
      assert [] + [base] == [base];
      RenderUnder(base, [], base[|base| - 1] == '/');
      assert [base] + [] == [base];
    } else {
      JoinBaseSplit(base, v);
      var p := base + "/" + v;
      var sv := Split(v, '/');
      var segs := [base] + sv;
      SplitSpec(v, '/');
      assert forall k :: 0 <= k < |segs| ==> '/' !in segs[k] && segs[k] != ".." by {
        forall k | 0 <= k < |segs| ensures '/' !in segs[k] && segs[k] != ".." {
          if k > 0 { assert segs[k] == sv[k - 1]; }
        }
      }
      ResolveWithoutDotDot(segs, false);
      KeepAppend([base], sv);
      KeepSingle(base);
      assert p[0] == base[0];
      RenderUnder(base, Keep(sv), p[|p| - 1] == '/');
    }
  }

  lemma KeepBaseLead(base: string, lead: seq<string>)
    requires Plain(base) && (lead == [] || lead == [""])
    ensures Keep([base] + lead) == [base]
  {
    KeepSingle(base);
    if lead == [""] {
      assert ([base] + lead)[..1] == [base];
    } else {
      assert [base] + lead == [base];
    }
  }

  /** Every `/`-separated segment of `w` is plain: a clean relative path such as `img/a.png`. */
  predicate PlainSegments(w: string) {
    forall k :: 0 <= k < |Split(w, '/')| ==> Plain(Split(w, '/')[k])
  }

  /** Resolving a plain base, an optional empty piece and plain segments keeps the base
      and the segments. */
  lemma ResolvePlainSegments(base: string, lead: seq<string>, w: string)
    requires Plain(base) && (lead == [] || lead == [""])
    requires PlainSegments(w)
    ensures Resolve(([base] + lead) + Split(w, '/'), false) == [base] + Split(w, '/')
  {
    var sw := Split(w, '/');
    var segs := ([base] + lead) + sw;
    assert forall k :: 0 <= k < |segs| ==> '/' !in segs[k] && segs[k] != ".." by {
      forall k | 0 <= k < |segs| ensures '/' !in segs[k] && segs[k] != ".." {
        if k >= |[base] + lead| { assert segs[k] == sw[k - |[base] + lead|]; }
      }
    }
    ResolveWithoutDotDot(segs, false);
    KeepAppend([base] + lead, sw);
    KeepBaseLead(base, lead);
    KeepPlain(sw);
  }

  /** Rendering a plain base and the plain segments of `w` gives `base/w`. */
  lemma RenderPlainValue(base: string, w: string)
    requires Plain(base) && PlainSegments(w)
    ensures Render([base] + Split(w, '/'), false, false) == base + "/" + w
  {
    var sw := Split(w, '/');
    PlainSegmentsEnd(w);
    JoinCons(base, sw, '/');
    JoinSplit(w, '/');
  }

  /** A clean relative path neither starts nor ends with `/`. */
  lemma PlainSegmentsEnd(w: string)
    requires PlainSegments(w)
    ensures w != [] && w[0] != '/' && w[|w| - 1] != '/'
  {
    var sw := Split(w, '/');
    JoinSplit(w, '/');
    assert forall k :: 0 <= k < |sw| ==> sw[k] != "" && '/' !in sw[k];
    JoinEnds(sw, '/');
  }

  /** The value as the page has it: the clean path, with or without a leading `/`. */
  lemma RootedValue(base: string, w: string, rooted: bool)
    requires Plain(base) && PlainSegments(w)
    ensures var v := if rooted then "/" + w else w;
            var p := base + "/" + v;
            && v != []
            && Split(p, '/') == ([base] + (if rooted then [""] else [])) + Split(w, '/')
            && p[0] != '/' && p[|p| - 1] != '/'
  {
    PlainSegmentsEnd(w);
    var v := if rooted then "/" + w else w;
    BaseSplit(base, v);
    if rooted { SplitRooted(w, '/'); }
    SplitNoSep(base, '/');
    var p := base + "/" + v;
    assert p[0] == base[0];
    assert p[|p| - 1] == w[|w| - 1];
  }

  /** A value made only of plain segments, with or without a leading `/`, is appended to a
      plain base: `path.join('assets', '/img/a.png')` is `assets/img/a.png`. */
  lemma JoinPlainValue(base: string, w: string, rooted: bool)
    requires Plain(base) && PlainSegments(w)
    ensures PathJoin([base, if rooted then "/" + w else w]) == base + "/" + w
  {
    var v := if rooted then "/" + w else w;
    RootedValue(base, w, rooted);
    JoinBaseSplit(base, v);
    var lead: seq<string> := if rooted then [""] else [];
    ResolvePlainSegments(base, lead, w);
    RenderPlainValue(base, w);
  }
}
