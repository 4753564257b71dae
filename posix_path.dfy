/** `path.join` and `path.normalize` of Node's POSIX path module, as the
    download routes use them: the name from the request is joined to the
    exports directory, and `.` and `..` segments are resolved by string
    rewriting alone (the file system is never consulted). */
module PosixPath {

  import Strings

  /** The segments left after resolving `segs` one by one onto `acc`: empty
      and `.` segments vanish, `..` removes the last kept segment, and where
      there is none it is kept only if the path may climb above its start
      (a relative path) and dropped at the root. */
  function Resolve(acc: seq<string>, segs: seq<string>, allowAbove: bool): seq<string>
    decreases |segs|
  {
    if segs == [] then acc
    else
      var s := segs[0];
      var next :=
        if s == "" || s == "." then acc
        else if s == ".." then
          if |acc| > 0 && acc[|acc| - 1] != ".." then acc[..|acc| - 1]
          else if allowAbove then acc + [".."]
          else acc
        else acc + [s];
      Resolve(next, segs[1..], allowAbove)
  }

  /** `path.normalize(p)`: a leading `/` and a trailing `/` are kept, the
      segments in between are resolved. */
  function Normalize(p: string): (r: string)
    ensures r != ""
  {
    if p == [] then "."
    else
      var absolute := p[0] == '/';
      var trailing := p[|p| - 1] == '/';
      var body := Strings.JoinWith(Resolve([], Strings.Split(p, '/'), !absolute), '/');
      if body == [] then
        if absolute then "/" else if trailing then "./" else "."
      else
        var b := if trailing then body + "/" else body;
        if absolute then "/" + b else b
  }

  /** `path.join(dir, name)`: the non-empty arguments joined with `/`, then
      normalised. */
  function Join(dir: string, name: string): (r: string)
    ensures r != ""
  {
    if dir == [] && name == [] then "."
    else if dir == [] then Normalize(name)
    else if name == [] then Normalize(dir)
    else Normalize(dir + "/" + name)
  }

  /** A segment that resolution keeps as it is. */
  predicate Plain(seg: string)
  {
    seg != "" && seg != "." && seg != ".." && '/' !in seg
  }

  predicate AllPlain(segs: seq<string>)
  {
    forall i :: 0 <= i < |segs| ==> Plain(segs[i])
  }

  /** The absolute directory whose segments are `segs`. */
  function AbsDir(segs: seq<string>): string
  {
    "/" + Strings.JoinWith(segs, '/')
  }

  lemma {:induction false} ResolvePlain(acc: seq<string>, segs: seq<string>, allowAbove: bool)
    requires AllPlain(segs)
    ensures Resolve(acc, segs, allowAbove) == acc + segs
    decreases |segs|
  {
    if segs != [] {
      ResolvePlain(acc + [segs[0]], segs[1..], allowAbove);
      assert acc + [segs[0]] + segs[1..] == acc + segs;
    }
  }

  /** No piece holds a slash. */
  predicate SlashFree(parts: seq<string>)
  {
    forall i :: 0 <= i < |parts| ==> '/' !in parts[i]
  }

  lemma SlashFreeConcat(a: seq<string>, b: seq<string>)
    requires SlashFree(a) && SlashFree(b)
    ensures SlashFree(a + b)
  {
    var all := a + b;
    forall i | 0 <= i < |all| ensures '/' !in all[i] {
      if i < |a| {
        assert all[i] == a[i];
      } else {
        assert all[i] == b[i - |a|];
      }
    }
  }

  lemma RootJoin(d: seq<string>)
    requires |d| >= 1
    ensures Strings.JoinWith([""] + d, '/') == AbsDir(d)
  {
    Strings.JoinWithConcat([""], d, '/');
    assert Strings.JoinWith([""], '/') == "";
  }

  /** The joined path's pieces between slashes. */
  lemma SplitAbsolute(d: seq<string>, n: seq<string>)
    requires |d| >= 1 && |n| >= 1 && SlashFree(d) && SlashFree(n)
    ensures AbsDir(d) + "/" + Strings.JoinWith(n, '/') == Strings.JoinWith([""] + d + n, '/')
    ensures Strings.Split(AbsDir(d) + "/" + Strings.JoinWith(n, '/'), '/') == [""] + d + n
  {
    RootJoin(d);
    Strings.JoinWithConcat([""] + d, n, '/');
    assert SlashFree([""]);
    SlashFreeConcat([""], d);
    SlashFreeConcat([""] + d, n);
    Strings.SplitJoin([""] + d + n, '/');
  }

  /** The last character of a join is that of its last part. */
  lemma JoinLastChar(parts: seq<string>, sep: char)
    requires |parts| >= 1 && parts[|parts| - 1] != ""
    ensures var j := Strings.JoinWith(parts, sep);
      j != "" && j[|j| - 1] == parts[|parts| - 1][|parts[|parts| - 1]| - 1]
  {
    if |parts| > 1 {
      var front := parts[..|parts| - 1];
      Strings.JoinWithAppend(front, parts[|parts| - 1], sep);
      assert front + [parts[|parts| - 1]] == parts;
    }
  }

  /** `/` followed by resolved segments. */
  function Rooted(segs: seq<string>): (r: string)
    ensures r != "" && r[0] == '/'
  {
    var body := Strings.JoinWith(segs, '/');
    if body == "" then "/" else "/" + body
  }

  /** An absolute path without a trailing slash normalises to the root
      followed by its resolved segments. */
  lemma NormalizeAbsolute(p: string, segs: seq<string>)
    requires p != [] && p[0] == '/' && p[|p| - 1] != '/'
    requires Strings.Split(p, '/') == [""] + segs
    ensures Normalize(p) == Rooted(Resolve([], segs, false))
  {
    assert ([""] + segs)[1..] == segs;
    assert Resolve([], [""] + segs, false) == Resolve([], segs, false);
  }

  /** The shape of a directory joined with slash-free pieces by `/`. */
  lemma JoinedShape(d: seq<string>, n: seq<string>)
    requires |d| >= 1 && AllPlain(d) && |n| >= 1 && n[|n| - 1] != "" && SlashFree(n)
    ensures var p := AbsDir(d) + "/" + Strings.JoinWith(n, '/');
      && Strings.JoinWith(n, '/') != ""
      && p[|p| - 1] != '/'
      && Strings.Split(p, '/') == [""] + d + n
  {
    PlainIsSlashFree(d);
    SplitAbsolute(d, n);
    JoinedLastChar(d, n);
  }

  lemma PlainIsSlashFree(d: seq<string>)
    requires AllPlain(d)
    ensures SlashFree(d)
  {
  }

  /** The joined path ends as the name's last piece does, never with `/`. */
  lemma JoinedLastChar(d: seq<string>, n: seq<string>)
    requires |d| >= 1 && |n| >= 1 && n[|n| - 1] != "" && SlashFree(n)
    ensures Strings.JoinWith(n, '/') != ""
    ensures var j := Strings.JoinWith([""] + d + n, '/'); j != "" && j[|j| - 1] != '/'
  {
    var segs := [""] + d + n;
    var last := n[|n| - 1];
    assert last[|last| - 1] in last;
    assert segs[|segs| - 1] == last;
    JoinLastChar(segs, '/');
    JoinLastChar(n, '/');
  }

  /** Normalising a directory joined with a name made of slash-free pieces,
      the last of them non-empty: the root followed by the resolved
      segments. */
  lemma NormalizeJoined(d: seq<string>, n: seq<string>)
    requires |d| >= 1 && AllPlain(d) && |n| >= 1 && n[|n| - 1] != "" && SlashFree(n)
    ensures Join(AbsDir(d), Strings.JoinWith(n, '/')) == Rooted(Resolve([], d + n, false))
  {
    var name := Strings.JoinWith(n, '/');
    var p := AbsDir(d) + "/" + name;
    JoinedShape(d, n);
    Strings.Regroup([""], d, n, []);
    NormalizeAbsolute(p, d + n);
  }

  /** Joining a plain name onto a plain absolute directory only adds a
      slash and the name: `path.join` changes nothing else. */
  lemma JoinPlainName(d: seq<string>, name: string)
    requires |d| >= 1 && AllPlain(d) && Plain(name)
    ensures Join(AbsDir(d), name) == AbsDir(d) + "/" + name
  {
    assert Strings.JoinWith([name], '/') == name;
    assert SlashFree([name]);
    NormalizeJoined(d, [name]);
    AllPlainSnoc(d, name);
    ResolvePlain([], d + [name], false);
    assert [] + (d + [name]) == d + [name];
    Strings.JoinWithAppend(d, name, '/');
    Strings.Regroup("/", Strings.JoinWith(d, '/'), "/", name);
  }

  lemma AllPlainSnoc(d: seq<string>, name: string)
    requires AllPlain(d) && Plain(name)
    ensures AllPlain(d + [name])
  {
    var all := d + [name];
    forall i | 0 <= i < |all| ensures Plain(all[i]) {
      if i < |d| {
        assert all[i] == d[i];
      }
    }
  }

  /** A name that starts with `..` climbs out of the directory: the result
      is the parent directory followed by the rest of the name. */
  lemma JoinClimbs(d: seq<string>, rest: seq<string>)
    requires |d| >= 1 && AllPlain(d) && |rest| >= 1 && AllPlain(rest)
    ensures Join(AbsDir(d), Strings.JoinWith([".."] + rest, '/'))
         == Rooted(d[..|d| - 1] + rest)
  {
    ClimbPieces(rest);
    NormalizeJoined(d, [".."] + rest);
    ClimbResolves(d, rest);
  }

  lemma ClimbPieces(rest: seq<string>)
    requires |rest| >= 1 && AllPlain(rest)
    ensures var n := [".."] + rest;
      n[|n| - 1] != "" && SlashFree(n)
  {
    var n := [".."] + rest;
    assert n[|n| - 1] == rest[|rest| - 1];
    forall i | 0 <= i < |n| ensures '/' !in n[i] {
      if i > 0 { assert n[i] == rest[i - 1]; }
    }
  }

  lemma ClimbResolves(d: seq<string>, rest: seq<string>)
    requires |d| >= 1 && AllPlain(d) && AllPlain(rest)
    ensures Resolve([], d + ([".."] + rest), false) == d[..|d| - 1] + rest
  {
    var n := [".."] + rest;
    ResolvePrefix([], d, n);
    assert [] + d == d;
    assert Plain(d[|d| - 1]);
    assert n[1..] == rest;
    assert Resolve(d, n, false) == Resolve(d[..|d| - 1], rest, false);
    ResolvePlain(d[..|d| - 1], rest, false);
  }

  lemma {:induction false} ResolvePrefix(acc: seq<string>, d: seq<string>, n: seq<string>)
    requires AllPlain(d)
    ensures Resolve(acc, d + n, false) == Resolve(acc + d, n, false)
    decreases |d|
  {
    if d != [] {
      assert (d + n)[0] == d[0] && (d + n)[1..] == d[1..] + n;
      ResolvePrefix(acc + [d[0]], d[1..], n);
      assert acc + [d[0]] + d[1..] == acc + d;
    } else {
      assert d + n == n && acc + d == acc;
    }
  }

  /** The path a climbing name leads to starts with the directory exactly
      when the name's first segment after `..` starts with the directory's
      last segment: the comparison is on characters, not on segments. */
  lemma ClimbedPrefix(d: seq<string>, rest: seq<string>)
    requires |d| >= 1 && AllPlain(d) && |rest| >= 1 && AllPlain(rest)
    ensures Strings.StartsWith(Rooted(d[..|d| - 1] + rest), AbsDir(d))
        <==> Strings.StartsWith(rest[0], d[|d| - 1])
  {
    var x := ParentPrefix(d);
    ClimbedShape(d, rest);
    Strings.StartsWithAfter(x, Strings.JoinWith(rest, '/'), d[|d| - 1]);
    assert Plain(d[|d| - 1]);
    Strings.StartsWithFirstPart(rest, '/', d[|d| - 1]);
  }

  /** The parent of `AbsDir(d)` followed by a slash. */
  function ParentPrefix(d: seq<string>): string
    requires |d| >= 1
  {
    var front := d[..|d| - 1];
    if front == [] then "/" else "/" + Strings.JoinWith(front, '/') + "/"
  }

  lemma ClimbedShape(d: seq<string>, rest: seq<string>)
    requires |d| >= 1 && |rest| >= 1 && rest[0] != ""
    ensures AbsDir(d) == ParentPrefix(d) + d[|d| - 1]
    ensures Rooted(d[..|d| - 1] + rest) == ParentPrefix(d) + Strings.JoinWith(rest, '/')
  {
    ParentThenLast(d);
    ParentThenRest(d, rest);
  }

  lemma ParentThenLast(d: seq<string>)
    requires |d| >= 1
    ensures AbsDir(d) == ParentPrefix(d) + d[|d| - 1]
  {
    var front := d[..|d| - 1];
    if front == [] {
      assert d == [d[0]];
    } else {
      assert front + [d[|d| - 1]] == d;
      Strings.JoinWithAppend(front, d[|d| - 1], '/');
      Strings.Regroup("/", Strings.JoinWith(front, '/'), "/", d[|d| - 1]);
    }
  }

  lemma ParentThenRest(d: seq<string>, rest: seq<string>)
    requires |d| >= 1 && |rest| >= 1 && rest[0] != ""
    ensures Rooted(d[..|d| - 1] + rest) == ParentPrefix(d) + Strings.JoinWith(rest, '/')
  {
    FirstPartNonEmpty(rest);
    if |d| == 1 {
      assert d[..0] + rest == rest;
    } else {
      DeepParentThenRest(d[..|d| - 1], rest);
    }
  }

  lemma DeepParentThenRest(front: seq<string>, rest: seq<string>)
    requires |front| >= 1 && |rest| >= 1
    ensures Rooted(front + rest)
         == "/" + Strings.JoinWith(front, '/') + "/" + Strings.JoinWith(rest, '/')
  {
    var a := Strings.JoinWith(front, '/');
    var b := Strings.JoinWith(rest, '/');
    Strings.JoinWithConcat(front, rest, '/');
    assert Strings.JoinWith(front + rest, '/') == a + "/" + b;
    Strings.Regroup("/", a, "/", b);
    Strings.Regroup(a, "/", b, "");
  }

  lemma FirstPartNonEmpty(parts: seq<string>)
    requires |parts| >= 1 && parts[0] != ""
    ensures Strings.JoinWith(parts, '/') != ""
  {
    if |parts| > 1 {
      assert |Strings.JoinWith(parts, '/')| >= |parts[0]|;
    }
  }

  /** The name `.` joins to the directory itself. */
  lemma JoinDot(d: seq<string>)
    requires |d| >= 1 && AllPlain(d)
    ensures Join(AbsDir(d), ".") == AbsDir(d)
  {
    assert Strings.JoinWith(["."], '/') == ".";
    assert SlashFree(["."]);
    NormalizeJoined(d, ["."]);
    ResolvePrefix([], d, ["."]);
    assert [] + d == d;
    assert Resolve(d, ["."], false) == d;
    assert d[0] != "";
    FirstPartNonEmpty(d);
  }
}
