/** Paths as the server sees them: `Path(arguments["path"])` parses the raw
    argument with POSIX pathlib rules, and `f"{path}"` renders it back in
    the replies. The raw argument is the path: it is not confined to any
    directory, and an absolute path stays absolute. */
module Paths {

  /** A parsed path: whether it is anchored at "/", and its components. */
  datatype Path = Path(absolute: bool, parts: seq<string>)

  /** A component that pathlib keeps after parsing: not empty, not ".",
      and free of the separator. (".." is an ordinary component.) */
  predicate IsName(c: string) {
    c != "" && c != "." && '/' !in c
  }

  predicate WellFormed(p: Path) {
    forall i | 0 <= i < |p.parts| :: IsName(p.parts[i])
  }

  /** The segments of `s` between separators, as `s.split("/")`. */
  function Split(s: string): (segs: seq<string>)
    ensures |segs| >= 1
    ensures forall i | 0 <= i < |segs| :: '/' !in segs[i]
  {
    if s == [] then [""]
    else if s[0] == '/' then [""] + Split(s[1..])
    else
      var rest := Split(s[1..]);
      [[s[0]] + rest[0]] + rest[1..]
  }

  /** The segments separated by "/", as `"/".join(segs)`. */
  function Join(segs: seq<string>): string {
    if |segs| == 0 then ""
    else if |segs| == 1 then segs[0]
    else segs[0] + "/" + Join(segs[1..])
  }

  /** The segments pathlib keeps: empty and "." segments disappear. */
  function Components(segs: seq<string>): (names: seq<string>)
    ensures |names| <= |segs|
    ensures (forall i | 0 <= i < |segs| :: '/' !in segs[i]) ==>
              forall i | 0 <= i < |names| :: IsName(names[i])
  {
    if segs == [] then []
    else if segs[0] == "" || segs[0] == "." then Components(segs[1..])
    else [segs[0]] + Components(segs[1..])
  }

  /** `Path(s)` on POSIX. A leading "/" makes the path absolute; repeated
      separators, trailing separators and "." components vanish. */
  function ParsePath(s: string): (p: Path)
    ensures WellFormed(p)
    ensures p.absolute <==> |s| > 0 && s[0] == '/'
  {
    Path(|s| > 0 && s[0] == '/', Components(Split(s)))
  }

  /** The text of joined segments starts with the first segment. */
  lemma JoinStartsWithFirst(segs: seq<string>)
    requires |segs| >= 1
    ensures |Join(segs)| >= |segs[0]| && Join(segs)[..|segs[0]|] == segs[0]
  {
    if |segs| > 1 {
      assert Join(segs) == segs[0] + ("/" + Join(segs[1..]));
    }
  }

  /** `str(path)`: the root, then the components joined by "/"; the empty
      relative path prints as ".". A well-formed path's text is not empty
      and starts with "/" exactly when the path is absolute. */
  function Render(p: Path): (text: string)
    ensures p.parts == [] ==> text == (if p.absolute then "/" else ".")
    ensures WellFormed(p) ==> |text| > 0 && (text[0] == '/' <==> p.absolute)
  {
    if p.absolute then "/" + Join(p.parts)
    else if p.parts == [] then "."
    else
      JoinStartsWithFirst(p.parts);
      assert WellFormed(p) ==> Join(p.parts)[..|p.parts[0]|][0] == p.parts[0][0];
      Join(p.parts)
  }

  /** The first `k` components, with the same anchor. */
  function Prefix(p: Path, k: nat): (q: Path)
    requires k <= |p.parts|
    ensures q.absolute == p.absolute && |q.parts| == k
    ensures forall i | 0 <= i < k :: q.parts[i] == p.parts[i]
  {
    Path(p.absolute, p.parts[..k])
  }

  /** `path.parent`: the last component dropped; "/" and "." are their own
      parents. */
  function Parent(p: Path): (a: Path)
    ensures a.absolute == p.absolute
    ensures |p.parts| > 0 ==> a == Prefix(p, |p.parts| - 1)
    ensures |p.parts| == 0 ==> a == p
  {
    if |p.parts| == 0 then p else Path(p.absolute, p.parts[..|p.parts| - 1])
  }

  /** Splitting undoes joining. */
  lemma {:induction false} JoinOfSplit(s: string)
    ensures Join(Split(s)) == s
    decreases |s|
  {
    if s == [] {
    } else if s[0] == '/' {
      JoinOfSplit(s[1..]);
      assert s == "/" + s[1..];
    } else {
      JoinOfSplit(s[1..]);
      var rest := Split(s[1..]);
      if |rest| == 1 {
        assert s == [s[0]] + rest[0];
      } else {
        assert Join(rest) == rest[0] + "/" + Join(rest[1..]);
        assert s == [s[0]] + rest[0] + "/" + Join(rest[1..]);
      }
    }
  }

  /** Splitting a string that starts with a separator-free segment `c`. */
  lemma {:induction false} SplitAfterName(c: string, tail: string)
    requires '/' !in c
    ensures Split(c + tail) == [c + Split(tail)[0]] + Split(tail)[1..]
    decreases |c|
  {
    if c != [] {
      SplitAfterName(c[1..], tail);
      assert (c + tail)[0] == c[0];
      assert (c + tail)[1..] == c[1..] + tail;
      assert [c[0]] + (c[1..] + Split(tail)[0]) == c + Split(tail)[0];
    } else {
      assert c + tail == tail;
      var segs := Split(tail);
      assert c + segs[0] == segs[0];
      assert segs == [segs[0]] + segs[1..];
    }
  }

  /** Joining separator-free segments and splitting again gives them back. */
  lemma {:induction false} SplitOfJoin(segs: seq<string>)
    requires |segs| >= 1
    requires forall i | 0 <= i < |segs| :: '/' !in segs[i]
    ensures Split(Join(segs)) == segs
    decreases |segs|
  {
    if |segs| == 1 {
      SplitAfterName(segs[0], "");
      assert segs[0] + "" == segs[0];
    } else {
      SplitOfJoin(segs[1..]);
      var tail := "/" + Join(segs[1..]);
      SplitAfterName(segs[0], tail);
      assert tail[0] == '/' && tail[1..] == Join(segs[1..]);
      assert Split(tail) == [""] + Split(Join(segs[1..]));
      assert segs[0] + "/" + Join(segs[1..]) == segs[0] + tail;
      assert segs[0] + "" == segs[0];
      assert segs == [segs[0]] + segs[1..];
    }
  }

  /** Well-formed components pass through the filter untouched. */
  lemma {:induction false} ComponentsOfNames(names: seq<string>)
    requires forall i | 0 <= i < |names| :: IsName(names[i])
    ensures Components(names) == names
    decreases |names|
  {
    if names != [] {
      ComponentsOfNames(names[1..]);
      assert names == [names[0]] + names[1..];
    }
  }

  /** Splitting around one separator splits each side on its own. */
  lemma SplitAroundSeparator(s: string, t: string)
    ensures Split(s + "/" + t) == Split(s) + Split(t)
  {
    var a, b := Split(s), Split(t);
    JoinOfSplit(s);
    JoinOfSplit(t);
    JoinAppend(a, b);
    SplitOfJoin(a + b);
  }

  /** Joining two non-empty lists of segments joins their texts with one
      separator. */
  lemma {:induction false} JoinAppend(a: seq<string>, b: seq<string>)
    requires |a| >= 1 && |b| >= 1
    ensures Join(a + b) == Join(a) + "/" + Join(b)
    decreases |a|
  {
    assert (a + b)[0] == a[0] && (a + b)[1..] == a[1..] + b;
    if |a| > 1 {
      JoinAppend(a[1..], b);
    }
  }

  /** Filtering segments commutes with concatenation: every kept segment
      survives, in order, wherever it sits. */
  lemma {:induction false} ComponentsAppend(a: seq<string>, b: seq<string>)
    ensures Components(a + b) == Components(a) + Components(b)
    decreases |a|
  {
    if a == [] {
      assert a + b == b;
    } else {
      ComponentsAppend(a[1..], b);
      assert (a + b)[0] == a[0] && (a + b)[1..] == a[1..] + b;
    }
  }

  /** A single segment is dropped when it is empty or ".", and kept as it is
      otherwise. */
  lemma ComponentsOfSegment(x: string)
    ensures Components([x]) == (if x == "" || x == "." then [] else [x])
  {
    assert [x][1..] == [];
  }

  /** Parsing text made of two parts joined by "/" keeps the components of
      both, in order: a separator, repeated or not, only separates. */
  lemma ParseAroundSeparator(s: string, t: string)
    ensures ParsePath(s + "/" + t).parts == ParsePath(s).parts + ParsePath(t).parts
    ensures ParsePath(s + "/" + t).absolute == (s == [] || ParsePath(s).absolute)
  {
    SplitAroundSeparator(s, t);
    ComponentsAppend(Split(s), Split(t));
    assert (s + "/" + t)[0] == (if s == [] then '/' else s[0]);
  }

  /** Text without a separator parses to at most that one component. */
  lemma ParseSegment(x: string)
    requires '/' !in x
    ensures ParsePath(x).parts == (if x == "" || x == "." then [] else [x])
  {
    SplitAfterName(x, "");
    assert x + "" == x;
    assert Split(x) == [x];
    ComponentsOfSegment(x);
  }

  /** A doubled separator and a trailing one vanish: "x//y/" parses to the
      components x, y and is printed as "x/y" (so "a//b/" as "a/b"). */
  lemma ParseExtraSeparators(x: string, y: string)
    requires IsName(x) && IsName(y)
    ensures ParsePath(x + "//" + y + "/") == Path(false, [x, y])
    ensures Render(ParsePath(x + "//" + y + "/")) == x + "/" + y
  {
    var e := "";
    var t1 := y + "/" + e;
    var t2 := e + "/" + t1;
    ExtraSeparatorsText(x, y);
    ParseSegment(x);
    ParseSegment(e);
    ParseSegment(y);
    ParseAroundSeparator(y, e);
    ParseAroundSeparator(e, t1);
    ParseAroundSeparator(x, t2);
    assert x[0] != '/' by { assert x[0] in x; }
    RenderPair(x, y);
  }

  lemma ExtraSeparatorsText(x: string, y: string)
    ensures x + "//" + y + "/" == x + "/" + ("" + "/" + (y + "/" + ""))
  {
  }

  lemma RenderPair(x: string, y: string)
    ensures Render(Path(false, [x, y])) == x + "/" + y
  {
    var xy := [x, y];
    assert Join(xy) == x + "/" + Join(xy[1..]);
  }

  /** Rendering a well-formed path and parsing the text again gives the same
      path: the path a reply names is the path the handler acted on. */
  lemma ParseOfRender(p: Path)
    requires WellFormed(p)
    ensures ParsePath(Render(p)) == p
  {
    if p.parts == [] {
      if p.absolute {
        var slash := "/" + Join(p.parts);
        assert slash[0] == '/' && slash[1..] == "";
        assert Split(slash) == ["", ""];
        assert Components(["", ""]) == Components([""]) == [];
      } else {
        var dot := ".";
        assert dot[0] == '.' && dot[1..] == "";
        assert Split(dot[1..]) == [""];
        assert [dot[0]] + "" == dot;
      }
    } else {
      var j := Join(p.parts);
      SplitOfJoin(p.parts);
      ComponentsOfNames(p.parts);
      assert |j| > 0 && j[0] == p.parts[0][0] by {
        JoinStartsWithFirst(p.parts);
      }
      if p.absolute {
        var s := "/" + j;
        assert s[1..] == j;
        assert Split(s) == [""] + p.parts;
        assert Components(Split(s)) == Components(p.parts);
      }
    }
  }

  /** The printed text of a path with components is exactly its components
      separated by single "/", after a leading "/" when it is absolute: no
      doubled, trailing or "." separators. */
  lemma RenderSegments(p: Path)
    requires WellFormed(p) && p.parts != []
    ensures Split(Render(p)) == (if p.absolute then [""] + p.parts else p.parts)
  {
    SplitOfJoin(p.parts);
    if p.absolute {
      var s := "/" + Join(p.parts);
      assert s[0] == '/' && s[1..] == Join(p.parts);
    }
  }

  /** Parsing is idempotent on its own rendering. */
  lemma RenderIsCanonical(s: string)
    ensures ParsePath(Render(ParsePath(s))) == ParsePath(s)
  {
    ParseOfRender(ParsePath(s));
  }
}
