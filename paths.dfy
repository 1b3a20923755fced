/**
 * The path mini-language of the node's *AtPath operations: local names separated by '/'.
 * A path is cut into segments the way Java's String.split("/") does it: at every '/',
 * keeping empty segments in front and in the middle and dropping the empty segments at the end.
 */
module Paths {

  /** The pieces of s between its '/' characters, empty ones included; always at least one. */
  function Segments(s: string): (r: seq<string>)
    ensures |r| >= 1
    ensures forall i :: 0 <= i < |r| ==> '/' !in r[i]
  {
    if s == [] then [""]
    else
      var rest := Segments(s[1..]);
      if s[0] == '/' then [""] + rest else [[s[0]] + rest[0]] + rest[1..]
  }

  /** The segments put back together, one '/' between neighbours. */
  function Join(segments: seq<string>): string {
    if segments == [] then ""
    else if |segments| == 1 then segments[0]
    else segments[0] + "/" + Join(segments[1..])
  }

  /** Removes the empty strings at the end of a list of segments. */
  function DropTrailingEmpty(ss: seq<string>): (r: seq<string>)
    ensures |r| <= |ss| && r == ss[..|r|]
    ensures forall i :: |r| <= i < |ss| ==> ss[i] == ""
    ensures r == [] || r[|r| - 1] != ""
  {
    if ss != [] && ss[|ss| - 1] == "" then DropTrailingEmpty(ss[..|ss| - 1]) else ss
  }

  /**
   * Java's path.split("/"): the input itself when it holds no '/', else its segments without
   * the trailing empty ones. The segments contain no '/', the last one is not empty (unless the
   * path itself is empty), and joining them again yields the path with only its trailing '/'s
   * removed.
   */
  function Split(path: string): (r: seq<string>)
    ensures forall i :: 0 <= i < |r| ==> '/' !in r[i]
    ensures path == "" || r == [] || r[|r| - 1] != ""
    ensures Join(r) <= path
    ensures forall i :: |Join(r)| <= i < |path| ==> path[i] == '/'
  {
    if '/' !in path then [path]
    else
      JoinSegments(path);
      JoinDropTrailing(Segments(path));
      DropTrailingEmpty(Segments(path))
  }

  /** Cutting at every '/' and joining again gives the input back. */
  lemma {:induction false} JoinSegments(s: string)
    ensures Join(Segments(s)) == s
  {
    if s != [] {
      var rest := Segments(s[1..]);
      JoinSegments(s[1..]);
      if s[0] == '/' {
        assert Segments(s) == [""] + rest;
        assert Join(Segments(s)) == "" + "/" + Join(rest);
      } else {
        assert Segments(s) == [[s[0]] + rest[0]] + rest[1..];
        if |rest| == 1 {
          assert Join(rest) == rest[0];
        } else {
          assert Join(rest) == rest[0] + "/" + Join(rest[1..]);
        }
      }
    }
  }

  /** Joining a list with a trailing empty segment adds exactly one '/' to the join of the rest. */
  lemma {:induction false} JoinSnoc(ss: seq<string>, last: string)
    requires ss != []
    ensures Join(ss + [last]) == Join(ss) + "/" + last
  {
    if |ss| == 1 {
      assert Join(ss + [last]) == ss[0] + "/" + Join([last]);
    } else {
      assert (ss + [last])[1..] == ss[1..] + [last];
      JoinSnoc(ss[1..], last);
    }
  }

  /** Joining a segment list and then trailing only '/'s reproduces the join of the list before its trailing empty segments were dropped. */
  lemma {:induction false} JoinDropTrailing(ss: seq<string>)
    requires ss != []
    ensures var r := DropTrailingEmpty(ss);
      Join(r) <= Join(ss) && forall i :: |Join(r)| <= i < |Join(ss)| ==> Join(ss)[i] == '/'
  {
    if ss[|ss| - 1] == "" {
      var init := ss[..|ss| - 1];
      if init == [] {
        assert ss == [""];
      } else {
        JoinDropTrailing(init);
        assert ss == init + [""];
        JoinSnoc(init, "");
      }
    }
  }

  /** The path "/" (or any path made only of '/') splits into no segment at all. */
  lemma SplitOnlySlashes(path: string)
    requires path != [] && forall i :: 0 <= i < |path| ==> path[i] == '/'
    ensures Split(path) == []
  {
    assert path[0] == '/';
    SegmentsOfSlashes(path);
  }

  lemma {:induction false} SegmentsOfSlashes(s: string)
    requires forall i :: 0 <= i < |s| ==> s[i] == '/'
    ensures forall i :: 0 <= i < |Segments(s)| ==> Segments(s)[i] == ""
  {
    if s != [] {
      SegmentsOfSlashes(s[1..]);
    }
  }
}
