/** The part of Node's POSIX `path.join` that decides where `savePost` writes:
    join with `/`, then normalise. Absolute paths are lists of segments from
    the root. */
module NodePath {

  /** A segment that normalisation keeps as it is. */
  predicate Plain(seg: string) {
    seg != "" && seg != "." && seg != ".." && '/' !in seg
  }

  /** A normalised absolute path: plain segments only. */
  predicate Normal(path: seq<string>) {
    forall i :: 0 <= i < |path| ==> Plain(path[i])
  }

  /** `p.split("/")`: the pieces between slashes, empty ones included. */
  function Segments(p: string): (r: seq<string>)
    ensures |r| >= 1
    ensures forall i :: 0 <= i < |r| ==> '/' !in r[i]
    ensures '/' !in p ==> r == [p]
    decreases |p|
  {
    if |p| == 0 then [""]
    else if p[0] == '/' then [""] + Segments(p[1..])
    else
      var rest := Segments(p[1..]);
      assert '/' !in p ==> rest == [p[1..]] && p == [p[0]] + p[1..];
      [[p[0]] + rest[0]] + rest[1..]
  }

  /** `segs.join("/")`. */
  function JoinSegments(segs: seq<string>): string
    requires |segs| >= 1
    decreases |segs|
  {
    if |segs| == 1 then segs[0] else segs[0] + "/" + JoinSegments(segs[1..])
  }

  /** Splitting at slashes and joining with slashes gives the path back. */
  lemma {:induction false} SegmentsRoundTrip(p: string)
    ensures JoinSegments(Segments(p)) == p
    decreases |p|
  {
    if |p| > 0 {
      var rest := Segments(p[1..]);
      SegmentsRoundTrip(p[1..]);
      if p[0] == '/' {
        JoinSlash(rest);
        assert p == "/" + p[1..];
      } else {
        JoinExtendsHead(p[0], rest);
        assert p == [p[0]] + p[1..];
      }
    }
  }

  /** Joining after an empty first segment puts a slash in front. */
  lemma JoinSlash(rest: seq<string>)
    requires |rest| >= 1
    ensures JoinSegments([""] + rest) == "/" + JoinSegments(rest)
  {
    assert ([""] + rest)[1..] == rest;
  }

  /** Joining after extending the first segment by `c` puts `c` in front. */
  lemma JoinExtendsHead(c: char, rest: seq<string>)
    requires |rest| >= 1
    ensures JoinSegments([[c] + rest[0]] + rest[1..]) == [c] + JoinSegments(rest)
  {
    var segs := [[c] + rest[0]] + rest[1..];
    if |rest| > 1 {
      var tail := JoinSegments(rest[1..]);
      assert segs[1..] == rest[1..];
      assert [c] + (rest[0] + "/" + tail) == [c] + rest[0] + "/" + tail;
    }
  }

  /** A slash-free head splits off as the first segment. */
  lemma {:induction false} SegmentsCons(a: string, b: string)
    requires '/' !in a
    ensures Segments(a + "/" + b) == [a] + Segments(b)
    decreases |a|
  {
    if |a| == 0 {
      assert a + "/" + b == "/" + b;
      assert ("/" + b)[1..] == b;
    } else {
      var s := a + "/" + b;
      assert s[0] == a[0] && s[1..] == a[1..] + "/" + b;
      SegmentsCons(a[1..], b);
      assert [a[0]] + a[1..] == a;
    }
  }

  /** Normalisation of one segment: empty and `.` vanish, `..` drops the last
      segment (and stays at the root), anything else is appended. */
  function Step(dir: seq<string>, seg: string): (r: seq<string>)
    ensures Normal(dir) && '/' !in seg ==> Normal(r)
    ensures Plain(seg) ==> r == dir + [seg]
    ensures seg == ".." ==> r == if |dir| == 0 then dir else dir[..|dir| - 1]
  {
    if seg == "" || seg == "." then dir
    else if seg == ".." then (if |dir| == 0 then dir else dir[..|dir| - 1])
    else dir + [seg]
  }

  /** Normalise the segments `segs` relative to `dir`, left to right. */
  function Resolve(dir: seq<string>, segs: seq<string>): (r: seq<string>)
    ensures Normal(dir) && (forall i :: 0 <= i < |segs| ==> '/' !in segs[i]) ==> Normal(r)
    decreases |segs|
  {
    if |segs| == 0 then dir else Resolve(Step(dir, segs[0]), segs[1..])
  }

  /** Plain segments are appended as they are. */
  lemma {:induction false} ResolvePlain(dir: seq<string>, segs: seq<string>)
    requires forall i :: 0 <= i < |segs| ==> Plain(segs[i])
    ensures Resolve(dir, segs) == dir + segs
    decreases |segs|
  {
    if |segs| > 0 {
      ResolvePlain(dir + [segs[0]], segs[1..]);
      assert dir + [segs[0]] + segs[1..] == dir + segs;
    }
  }

  /** `path.join(dir, rel)` for a normalised absolute directory `dir`. */
  function Join(dir: seq<string>, rel: string): (r: seq<string>)
    requires Normal(dir)
    ensures Normal(r)
    ensures Plain(rel) ==> r == dir + [rel]
  {
    if Plain(rel) then
      ResolvePlain(dir, [rel]);
      Resolve(dir, Segments(rel))
    else Resolve(dir, Segments(rel))
  }
}
