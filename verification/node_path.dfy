/** Node's POSIX `path.extname`: the extension of the last path segment,
    ignoring trailing slashes. */
module NodePath {

  /** End of `p[..k]` once its trailing `/` characters are dropped. */
  function TrimmedEnd(p: string, k: nat): (e: nat)
    requires k <= |p|
    ensures e <= k
    ensures forall j :: e <= j < k ==> p[j] == '/'
    ensures e == 0 || p[e - 1] != '/'
  {
    if k > 0 && p[k - 1] == '/' then TrimmedEnd(p, k - 1) else k
  }

  /** Start of the segment ending at `k`: just past the last `/` before `k`. */
  function SegStart(p: string, k: nat): (s: nat)
    requires k <= |p|
    ensures s <= k
    ensures forall j :: s <= j < k ==> p[j] != '/'
    ensures s == 0 || p[s - 1] == '/'
  {
    if k == 0 then 0 else if p[k - 1] == '/' then k else SegStart(p, k - 1)
  }

  /** Index of the last `.` in `p[lo..k]`, or -1 when there is none. */
  function LastDot(p: string, lo: nat, k: nat): (d: int)
    requires lo <= k <= |p|
    ensures d == -1 || (lo <= d < k && p[d] == '.')
    ensures d == -1 ==> forall j :: lo <= j < k ==> p[j] != '.'
    ensures d != -1 ==> forall j :: d < j < k ==> p[j] != '.'
    decreases k - lo
  {
    if lo == k then -1
    else
      var r := LastDot(p, lo + 1, k);
      if r != -1 then r else if p[lo] == '.' then lo else -1
  }

  /** `path.extname(p)`: in the last segment (trailing slashes ignored), the
      suffix from its last `.`; empty when the segment has no `.`, when its
      only `.` is its first character, or when the segment is `..`. */
  function ExtName(p: string): (ext: string)
    ensures ext == [] || ext[0] == '.'
    ensures forall j :: 0 < j < |ext| ==> ext[j] != '.' && ext[j] != '/'
  {
    var e := TrimmedEnd(p, |p|);
    var s := SegStart(p, e);
    var d := LastDot(p, s, e);
    if d == -1 || d == s || p[s..e] == ".." then [] else p[d..e]
  }

  /** Node's own right-to-left scan, state variable for state variable;
      it computes exactly `ExtName`. `preDotState` is 0 while nothing has
      been seen left of the last dot, 1 when the leftmost character seen
      so far is a `.`, and -1 when it is anything else. */
  method ExtNameScan(path: string) returns (ext: string)
    ensures ext == ExtName(path)
  {
    var startDot := -1;
    var startPart := 0;
    var end := -1;
    var matchedSlash := true;
    var preDotState := 0;
    var i := |path| - 1;
    while i >= 0
      invariant -1 <= i < |path|
      invariant startPart == 0
      invariant matchedSlash ==> end == -1 && startDot == -1 && preDotState == 0
      invariant matchedSlash ==> TrimmedEnd(path, |path|) == TrimmedEnd(path, i + 1)
      invariant !matchedSlash ==> i + 1 < end && end == TrimmedEnd(path, |path|)
      invariant !matchedSlash ==> SegStart(path, end) == SegStart(path, i + 1)
      invariant !matchedSlash ==> startDot == LastDot(path, i + 1, end)
      invariant startDot == -1 ==> preDotState == 0
      invariant startDot != -1 ==>
        preDotState == (if startDot == i + 1 then 0 else if path[i + 1] == '.' then 1 else -1)
      decreases i
    {
      if path[i] == '/' {
        if !matchedSlash {
          startPart := i + 1;
          break;
        }
      } else {
        if end == -1 {
          matchedSlash := false;
          end := i + 1;
        }
        if path[i] == '.' {
          if startDot == -1 {
            startDot := i;
          } else if preDotState != 1 {
            preDotState := 1;
          }
        } else if startDot != -1 {
          preDotState := -1;
        }
      }
      i := i - 1;
    }
    if startDot == -1 || end == -1 || preDotState == 0
       || (preDotState == 1 && startDot == end - 1 && startDot == startPart + 1)
    {
      ext := [];
    } else {
      ext := path[startDot..end];
    }
  }

  /** A segment whose last `.` is not its first character yields the
      suffix from that `.`, whatever directories precede it. */
  lemma ExtNameTakesLastDot(dir: string, stem: string, tail: string)
    requires dir == [] || dir[|dir| - 1] == '/'
    requires stem != [] && '/' !in stem
    requires '/' !in tail && '.' !in tail
    requires stem + "." + tail != ".."
    ensures ExtName(dir + stem + "." + tail) == "." + tail
  {
    var p := dir + stem + "." + tail;
    var e := TrimmedEnd(p, |p|);
    assert e == |p|;
    assert dir != [] ==> p[|dir| - 1] == '/';
    assert forall j :: |dir| <= j < |p| ==> p[j] == (stem + "." + tail)[j - |dir|];
    var s := SegStart(p, e);
    assert s == |dir|;
    var dotAt := |dir| + |stem|;
    assert p[dotAt] == '.';
    assert forall j :: dotAt < j < |p| ==> p[j] == tail[j - dotAt - 1];
    var d := LastDot(p, s, e);
    assert d == dotAt;
    assert p[s..e] == stem + "." + tail;
    assert p[d..e] == "." + tail;
  }

  /** A segment with no `.` after its first character has no extension. */
  lemma ExtNameWithoutInnerDot(dir: string, name: string)
    requires dir == [] || dir[|dir| - 1] == '/'
    requires name != [] && '/' !in name && '.' !in name[1..]
    ensures ExtName(dir + name) == []
  {
    var p := dir + name;
    var e := TrimmedEnd(p, |p|);
    assert p[|p| - 1] == name[|name| - 1];
    assert e == |p|;
    assert dir != [] ==> p[|dir| - 1] == '/';
    assert forall j :: |dir| <= j < |p| ==> p[j] == name[j - |dir|];
    var s := SegStart(p, e);
    assert s == |dir|;
    assert p[s..e] == name;
    assert forall j :: s < j < e ==> p[j] == name[1..][j - s - 1];
  }

  /** Trailing slashes are ignored. */
  lemma ExtNameIgnoresTrailingSlash(p: string)
    ensures ExtName(p + "/") == ExtName(p)
  {
    var q := p + "/";
    assert p <= q;
    assert TrimmedEnd(q, |q|) == TrimmedEnd(q, |p|) == TrimmedEnd(p, |p|);
    var e := TrimmedEnd(p, |p|);
    var s := SegStart(p, e);
    assert SegStart(q, e) == s;
    assert LastDot(q, s, e) == LastDot(p, s, e);
    assert q[s..e] == p[s..e];
  }

  /** A URL without a path: the text from the host's last dot reads as
      the extension. */
  lemma ExtNameOfBareHost(url: string)
    requires url == "https://x.com"
    ensures ExtName(url) == ".com"
  {
    ExtNameTakesLastDot("https://", "x", "com");
    assert "https://" + "x" + "." + "com" == url;
  }

  /** A query string stays attached to the extension. */
  lemma ExtNameOfUrlWithQuery(url: string)
    requires url == "https://x.com/a.png?x=1"
    ensures ExtName(url) == ".png?x=1"
  {
    ExtNameTakesLastDot("https://x.com/", "a", "png?x=1");
    assert "https://x.com/" + "a" + "." + "png?x=1" == url;
  }

  /** A dot inside the query string moves the extension into it. */
  lemma ExtNameOfUrlWithDottedQuery(url: string)
    requires url == "https://x.com/a.png?v=1.2"
    ensures ExtName(url) == ".2"
  {
    ExtNameTakesLastDot("https://x.com/", "a.png?v=1", "2");
    assert "https://x.com/" + "a.png?v=1" + "." + "2" == url;
  }

  /** An uploaded file's name keeps its extension verbatim, case included.
      Apart from that, `extname` skips a trailing slash. */
  lemma ExtNameOfFileNames()
    ensures ExtName("photo.JPG") == ".JPG"
    ensures ExtName("a.png/") == ".png"
  {
    ExtNameTakesLastDot("", "photo", "JPG");
    assert "" + "photo" + "." + "JPG" == "photo.JPG";
    ExtNameTakesLastDot("", "a", "png");
    assert "" + "a" + "." + "png" == "a.png";
    ExtNameIgnoresTrailingSlash("a.png");
    assert "a.png" + "/" == "a.png/";
  }

  /** Leading dots: a hidden file and `..` have no extension, `...` has `.`. */
  lemma ExtNameOfDotNames()
    ensures ExtName(".bashrc") == []
    ensures ExtName("..") == []
    ensures ExtName("...") == "."
  {
  }

  /** No segment, or no dot at all: no extension. */
  lemma ExtNameOfEmptyNames()
    ensures ExtName("") == []
    ensures ExtName("/") == []
    ensures ExtName("noext") == []
  {
  }
}
